# Weighted traffic distribution, modelled in Dafny

This project models the Cloudstuff Tracker Utils traffic allocator and proves its
properties. The allocator is configured with a fraction map such as
`{ A: "1/2", B: "1/4", C: "1/4" }`. From it, the allocator derives a cycle length,
which is the least common multiple of the denominators (4 in the example), and a
quota table (A:2, B:1, C:1). It sorts the table by quota, highest first. Each call
of `allocateTraffic(redisKey)` then runs one round against a shared Redis hash:

- A first atomic MULTI/EXEC batch increments the counter `obj:<id>:t` of every target.
- The round selects the first target whose incremented counter is still within its quota.
- A second batch either resets every counter to 0, or takes back the probe of every target that was not selected. It resets when `totalCount - n + 1 >= lcm`.

The project also models four small utilities of the same repository:

- the `BufferWriter` batching buffer;
- the process-wide `Registry`;
- `ArrayMethods.remove` and `ArrayMethods.removeKeys`;
- `StringMethods.makePrimaryKey`.

Modules, one per file:

- `TrafficLcm`: the brute-force least common multiple and its fold over a list. It proves that the result is a common multiple, divides every other common multiple, and is the least one.
- `TrafficQuota`: parsed fractions, the quota entries, and lodash's stable `orderBy(count, desc)`. It proves sortedness, permutation, stability and distinct ids.
- `CounterStore`: the Redis hash as a map from (key, field) to an integer, where an absent field reads as 0. It has HINCRBY and HMSET, an atomic batch `Exec` with its replies, and a `Redis` class whose `MultiExecute` applies a batch.
- `TrafficRound`: one round stated as functions, with its selection, reset and compensation properties. It also holds the round as written, with the source's truthiness test, and proves it equal to the corrected round on tables without an empty id (see Findings).
- `TrafficDistribution`: the `TrafficDistribution` class. Its methods (`CalLcm`, `LcmArr`, `CalculateLcm`, `CalTrafficAllocation`, `AllocateTraffic`) are loops proved against the functions above. The module also proves the documentation example and its four-round cycle.
- `JsValue`: JavaScript values, truthiness, `x || d` and `String(v)`.
- `BufferWriter`, `Registry`, `ArrayMethods`: the stateful utilities. Their state lives in class fields that their methods change in place.
- `StringMethods`: `makePrimaryKey`, a module-level method with no object state. It pushes one piece per field in a loop and joins the pieces with `_XX_`.
- `Arithmetic`: facts about Euclidean division that the cycle length and the buffer rely on.
- `Wrappers`: `Option`.

Notes on how the code behaves:

- **Ties.** Entries with equal quotas keep their fraction-map order, because lodash's `orderBy` is stable (`src/trafficdistribution.js:87`). `TrafficQuota.AllocationProperties` proves this order.
- **LCM.** The cycle length comes from the upward search of `calLcm` (`src/trafficdistribution.js:31-42`). The model proves that the search yields the least common multiple.
- **Denominators.** Nothing in the code rejects a zero denominator, and `calLcm` never terminates on one, because `greater % 0` is `NaN`. A negative denominator does terminate, because JavaScript's `%` takes the sign of the dividend; it then yields a negative quota. The model takes fractions as parsed natural numbers with positive denominators (see Left out).
- **Empty ids.** The selection test `! selectedId` (`src/trafficdistribution.js:126`) treats an empty id as "nothing selected yet". The model's `Round` uses the intended `null` test. `TrafficRound.RoundAsWrittenAgrees` proves that the two coincide on every table without an empty id (see Findings).
- **Compensation failures.** A failed batch is not modelled (see Left out).

## Model

| member | source | states |
|---|---|---|
| TrafficLcm.LcmSearch | src/trafficdistribution.js:33-40 | Counting up from `greater` stops at a common multiple of `a` and `b`, and no number it passed was one. |
| TrafficLcm.Lcm | src/trafficdistribution.js:31-42 | The search from `max(a, b)` returns the least positive common multiple of `a` and `b`. |
| TrafficLcm.LeastDividesCommonMultiple | src/trafficdistribution.js:31-42 | Any least common multiple of `a` and `b` divides every common multiple of them. |
| TrafficLcm.LcmDividesCommonMultiple | src/trafficdistribution.js:31-42 | Every common multiple of `a` and `b` is a multiple of `Lcm(a, b)`. |
| TrafficLcm.LcmSeq | src/trafficdistribution.js:50-56 | The left fold of `Lcm` from 1 over the list, as `lcmArr` computes it; it is at least 1 (properties in `LcmSeqDivides` and `LcmSeqIsLeast`). |
| TrafficLcm.LcmSeqDivides | src/trafficdistribution.js:50-56 | The fold of `Lcm` from 1 over a list is a multiple of every element and divides every common multiple of the elements. |
| TrafficLcm.LcmSeqIsLeast | src/trafficdistribution.js:50-56 | The fold is the least positive common multiple of the list; for the empty list it is 1. |
| TrafficQuota.CycleLength | src/trafficdistribution.js:61-69 | The cycle length is a positive multiple of every denominator of the map, and no smaller positive number is a multiple of them all. |
| TrafficQuota.QuotaFactorExact | src/trafficdistribution.js:82 | With the cycle length, every factor `lcm / denominator` is exact: factor times denominator gives back the cycle length. |
| TrafficQuota.Quota | src/trafficdistribution.js:81-85 | A fraction's quota `numerator * (lcm / denominator)`; with the cycle length the division is exact (`QuotaFactorExact`). |
| TrafficQuota.Entries | src/trafficdistribution.js:79-86 | One entry `{id, numerator * (lcm / denominator)}` per fraction, in iteration order (properties in `AllocationProperties`). |
| TrafficQuota.Allocation | src/trafficdistribution.js:77-89 | The entries ordered by count, highest first (properties in `AllocationProperties` and `AllocationEntry`). |
| TrafficQuota.OrderByCountDesc | src/trafficdistribution.js:87 | lodash's `orderBy(result, ['count'], ['desc'])` as a stable insertion sort (properties in `OrderByCountDescSortedPermutation`, `OrderByCountDescStable` and `OrderByCountDescIds`). |
| TrafficQuota.OrderByCountDescSortedPermutation | src/trafficdistribution.js:87 | The ordered table has the same entries with the same multiplicities, and counts never increase along it. |
| TrafficQuota.OrderByCountDescStable | src/trafficdistribution.js:87 | For every count, the entries with that count appear in their original relative order. |
| TrafficQuota.OrderByCountDescIds | src/trafficdistribution.js:87 | Ordering keeps the set of ids, and it keeps them distinct when they were. |
| TrafficQuota.AllocationProperties | src/trafficdistribution.js:77-89 | The allocation table has one row per fraction. It is a permutation of the quota entries, sorted by count with the highest first, stable on ties, and its ids are distinct. |
| TrafficQuota.AllocationEntry | src/trafficdistribution.js:79-86 | Every row of the table is `{id, numerator * (lcm / denominator)}` for some fraction of the map. |
| CounterStore.ExecAppend | src/redis.js:80-99 | Executing two batches in sequence is executing their concatenation. |
| CounterStore.ExecOutside | src/redis.js:80-99 | A batch leaves every field it does not name unchanged. |
| CounterStore.ExecDistinct | src/redis.js:80-99 | In a batch naming each field once, each command acts on and answers from the field's value before the batch. |
| CounterStore.RepliesLength | src/redis.js:80-99 | A batch gets one reply per command. |
| CounterStore.Exec | src/redis.js:80-99 | The store after a MULTI/EXEC batch, its commands applied in order (properties in `ExecAppend`, `ExecOutside`, `ExecDistinct`). |
| CounterStore.Replies | src/redis.js:80-99 | The replies of a batch, each command answered on the store left by the commands before it (properties in `RepliesLength`, `ExecDistinct`). |
| CounterStore.Redis.MultiExecute | src/redis.js:80-99 | The store becomes the batch applied in order, and the replies are the commands' answers in order. |
| TrafficRound.Field | src/trafficdistribution.js:107 | The counter field `obj:<id>:t` of a target (injective by `FieldInjective`). |
| TrafficRound.FieldInjective | src/trafficdistribution.js:107 | Different target ids get different `obj:<id>:t` fields. |
| TrafficRound.ProbeOps | src/trafficdistribution.js:105-109 | One `HINCRBY key obj:<id>:t 1` per row, in table order (effect in `ProbeEffect`). |
| TrafficRound.FirstFit | src/trafficdistribution.js:122-132 | The first row whose count is within quota, with no earlier row within quota; `None` when no row fits. |
| TrafficRound.CompOp | src/trafficdistribution.js:126-138 | The compensation for a row is at most one command, and it acts only on that row's counter. |
| TrafficRound.CompOps | src/trafficdistribution.js:120-139 | The compensation commands of the rows, in table order (effect in `CompEffect`). |
| TrafficRound.ProbeRepliesAreIntegers | src/trafficdistribution.js:112-113 | Every reply to the probe batch is an integer, one per command. |
| TrafficRound.RowCountersDistinct | src/trafficdistribution.js:107 | With distinct ids, different rows use different counters. |
| TrafficRound.ProbeEffect | src/trafficdistribution.js:105-112 | The probe answers each row's counter plus one, stores that value, and touches no other field. |
| TrafficRound.CompOpEffect | src/trafficdistribution.js:126-138 | A row's compensation sets its counter to 0 on reset, leaves the winner's hit in place, or takes back a loser's probe; no other field moves. |
| TrafficRound.CompEffect | src/trafficdistribution.js:120-140 | The whole compensation batch does row by row what `CompOpEffect` says, and nothing outside the rows. |
| TrafficRound.Sum | src/trafficdistribution.js:113 | `_.sum` of the replies (its shift by the probe in `SumShifted`). |
| TrafficRound.ProbeTotal | src/trafficdistribution.js:113 | The `totalCount` of a round: the old counters' sum plus one per row (tied to the replies by `RoundCounts`). |
| TrafficRound.SumShifted | src/trafficdistribution.js:113 | Adding one to every element raises the sum by the length. |
| TrafficRound.RoundCounts | src/trafficdistribution.js:112-116 | The round's counts are the previous counters plus one, and `totalCount` is their sum. |
| TrafficRound.Round | src/trafficdistribution.js:103-141 | One round with the `null` selection test: probe, select, compensate (properties in the `Round...` lemmas below). |
| TrafficRound.Selection | src/trafficdistribution.js:121-132 | The `selectedId` after the first `n` rows under the `null` test: the id of the first fitting row, or `None` (characterised by `FirstFit` and `RoundSelectsFirstFit`). |
| TrafficRound.RoundSelectsFirstFit | src/trafficdistribution.js:122-132 | A row's id is selected if and only if its incremented counter is within its quota and every earlier row's is not. The result is null if and only if no row fits. |
| TrafficRound.RoundWithoutReset | src/trafficdistribution.js:116-140 | Without a reset, the winner's counter rises by one and every other row's counter is back to its old value. Other fields are untouched. With no winner, the store is unchanged. |
| TrafficRound.RoundWithReset | src/trafficdistribution.js:116-135 | With a reset, every row's counter is 0 afterwards, the winner's included, and other fields are untouched. |
| TrafficRound.RoundKeepsOtherKeys | src/trafficdistribution.js:103-141 | A round changes no field of any other Redis key. |
| TrafficRound.RoundRow | src/trafficdistribution.js:103-141 | The counter of one row after a round: 0 on reset, otherwise the old value plus one for the winner only. |
| TrafficRound.RoundOutside | src/trafficdistribution.js:103-141 | A field of no row has the same value after a round. |
| TrafficRound.RoundEffect | src/trafficdistribution.js:103-141 | The whole store after a round, row by row and outside the rows. |
| TrafficRound.EmptyIdSelectsTwice | src/trafficdistribution.js:126 | Under the source's truthiness test, the empty id fits but is overwritten by a second winner, so both keep their hit. Under the null test, only the empty id is selected and counted. |
| TrafficRound.SelectionAsWritten | src/trafficdistribution.js:121-132 | `selectedId` after each row under the source's truthiness test. |
| TrafficRound.CompOpsAsWritten | src/trafficdistribution.js:120-139 | The compensation batch under the source's truthiness test. |
| TrafficRound.RoundAsWritten | src/trafficdistribution.js:103-141 | One round exactly as written, with `! selectedId`. |
| TrafficRound.AsWrittenAgrees | src/trafficdistribution.js:121-139 | With no empty id, the truthiness test and the `null` test give the same selection and the same compensation commands after every row. |
| TrafficRound.RoundAsWrittenAgrees | src/trafficdistribution.js:103-141 | With no empty id, the round as written equals `Round`, so every `Round` lemma holds for the code as written on such tables. |
| TrafficDistribution.TrafficDistribution.constructor | src/trafficdistribution.js:17-23 | The object keeps the store and the fraction map, and its `lcm` is the cycle length of the map. |
| TrafficDistribution.TrafficDistribution.CalLcm | src/trafficdistribution.js:31-42 | The loop returns `Lcm(a, b)`, the least common multiple. |
| TrafficDistribution.TrafficDistribution.LcmArr | src/trafficdistribution.js:50-56 | The loop returns the fold `LcmSeq(arr)`, the least common multiple of the list. |
| TrafficDistribution.TrafficDistribution.CalculateLcm | src/trafficdistribution.js:61-69 | `lcm` becomes the least common multiple of the map's denominators, and nothing else changes. |
| TrafficDistribution.TrafficDistribution.CalTrafficAllocation | src/trafficdistribution.js:77-89 | The pushed and sorted list is the allocation table, whose properties `AllocationProperties` proves. |
| TrafficDistribution.TrafficDistribution.AllocateTraffic | src/trafficdistribution.js:103-141 | The returned id and the new store are exactly those of `Round` on the old store, so the round lemmas apply to every call. |
| TrafficDistribution.DocExampleTable | src/trafficdistribution.js:15-89 | For `{A: 1/2, B: 1/4, C: 1/4}`, the cycle length is 4 and the table is A:2, B:1, C:1. |
| TrafficDistribution.DocExampleTableFacts | src/trafficdistribution.js:103-141 | For the documentation table, the counter each row probes, that the ids are distinct, the probe total and the set of counters touched. |
| TrafficDistribution.DocExampleRound | src/trafficdistribution.js:103-141 | For that table and any counters, the winner (or none) and the new counters in closed form. |
| TrafficDistribution.DocExampleCycle | src/trafficdistribution.js:103-141 | From zero counters, four rounds answer A, A, B, C. All three counters are then 0 again and no other field has changed, so the pattern repeats. |
| TrafficDistribution.DocExampleAsWritten | src/trafficdistribution.js:103-141 | For the documentation example, the round as written equals `Round`, so the A, A, B, C cycle holds for the code as written. |
| JsValue.Or | src/registry.js:34 | `x \|\| d` is one of its operands, and it is truthy exactly when `x` or `d` is: a truthy `x` wins, otherwise `d`. |
| JsValue.ToJsString | src/stringmethods.js:11 | A truthy value never converts to the empty string, and a string converts to itself. |
| StringMethods.Property | src/stringmethods.js:9 | `obj[g]` on the object's own properties, `undefined` when the field is absent (prototype chain under Left out). |
| StringMethods.Piece | src/stringmethods.js:9 | The piece of a field is its value when truthy and `" "` otherwise, so it is always truthy. |
| StringMethods.ElementString | src/stringmethods.js:11 | `join` turns a truthy element into a non-empty string. |
| StringMethods.Join | src/stringmethods.js:11 | `_.join(pieces, sep)`: the pieces with one separator between neighbours, `""` for none (properties in `JoinLength` and `JoinCons`). |
| StringMethods.JoinLength | src/stringmethods.js:11 | Joining `k >= 1` strings adds exactly `k - 1` separators: the length is the pieces' total plus `k - 1` separator lengths. |
| StringMethods.JoinCons | src/stringmethods.js:11 | The join of `[p] + ps` is `p`, one separator, then the join of `ps`. |
| StringMethods.MakePrimaryKey | src/stringmethods.js:6-12 | The key is the pieces joined by `"_XX_"`. An empty or omitted `groupBy` gives `""`, one field gives its piece alone, and `k` fields give exactly `k - 1` separators. |
| StringMethods.PrimaryKeyCons | src/stringmethods.js:8-11 | The key for `[g] + rest` is the piece of `g`, `"_XX_"`, then the key for `rest`. |
| Registry.Registry.constructor | src/registry.js:12-15 | A new registry has prefix `"Reg:"` and an empty map. |
| Registry.Registry.GetKey | src/registry.js:22-24 | The key is the prefix followed by the name. |
| Registry.Registry.GetKeyInjective | src/registry.js:22-24 | Two names have the same key if and only if they are equal. |
| Registry.Registry.Get | src/registry.js:32-35 | The stored value when it is present and truthy; otherwise the default, including for names never set. |
| Registry.Registry.Set | src/registry.js:42-45 | Only the name's entry changes, and the last write wins. A later `Get` returns the value when it is truthy and the default when it is not. Every other name reads as before. |
| ArrayMethods.IndexOf | src/arraymethods.js:25 | The index of the first occurrence, or -1 exactly when the element is absent. |
| ArrayMethods.RemoveFirst | src/arraymethods.js:25-28 | With the element absent, the array is unchanged. Otherwise the length drops by one, the elements before the first occurrence stay, the later ones shift left by one, and exactly one copy leaves the multiset. |
| ArrayMethods.Remove | src/arraymethods.js:24-30 | The array is spliced in place to `RemoveFirst` of its old contents, and the same array is returned. |
| ArrayMethods.RemoveKeys | src/arraymethods.js:6-11 | Listed keys are gone, and every other property keeps its value. An empty or omitted key list changes nothing, and the same object is returned. |
| BufferWriter.MaxDocsOption | src/bufferwriter.js:18 | `opts.maxDocs \|\| 500`: an absent or zero option gives 500, and any other value is kept. |
| BufferWriter.FlushStep | src/bufferwriter.js:33-40 | When forced or at the threshold, a non-empty buffer becomes exactly one more batch, in order, and the buffer empties. An empty buffer adds no batch. Otherwise nothing changes. No document is lost. |
| BufferWriter.InsertStep | src/bufferwriter.js:24-27 | Inserting appends the document. Reaching `maxDocs` writes the whole buffer, the new document last, as one batch. |
| BufferWriter.InsertAll | src/bufferwriter.js:24-27 | The state after inserting a list of documents one by one (properties in `InsertAllBatches`). |
| BufferWriter.BatchedStep | src/bufferwriter.js:24-40 | One more insert keeps the batches full and the buffer at `n % m`. |
| BufferWriter.InsertAllBatches | src/bufferwriter.js:24-40 | From an empty writer with threshold `m >= 1`, `n` inserts write `n / m` batches of exactly `m` documents, in insertion order, and leave the last `n % m` buffered. |
| BufferWriter.BufferWriter.constructor | src/bufferwriter.js:15-18 | A new writer has an empty buffer, no batches and `maxDocs` from the option. |
| BufferWriter.BufferWriter.Flush | src/bufferwriter.js:33-40 | The buffer and the batches change as `FlushStep` says. The writer stays valid: batches plus buffer are everything inserted, and the buffer is empty or below `maxDocs`. |
| BufferWriter.BufferWriter.Insert | src/bufferwriter.js:24-27 | The buffer and the batches change as `InsertStep` says, the document joins the history, and with `maxDocs >= 1` the buffer stays below `maxDocs`. |

## Left out

- The Redis client itself (`src/redis.js`): the network, the connection, and `multiExecute`'s 1000 ms timeout race are not modelled. A batch is an atomic, in-order application of its commands, and errors and timeouts are not modelled. Neither are the failures of the two batches in `allocateTraffic`, at `src/trafficdistribution.js:112` and `:140`.
- Concurrency: other clients' batches running between the two batches of one round are not modelled. Rounds are sequential.
- `async`/`await`: each method runs to completion.
- Parsing `"n/d"` with `split("/")` and `Number()`: fractions are pre-parsed natural numbers with positive denominators. Floating-point results, NaN and non-integral quotas are not modelled.
- The sum of the quotas: it equals the cycle length only when the fractions sum to 1. The code never checks that they do, so the model states nothing about the sum.
- JavaScript object key order. The fraction map is a sequence in iteration order; integer-like keys, which JavaScript enumerates first, are not reordered.
- `ArrayMethods.add`: it accumulates with `parseFloat`, which is floating-point arithmetic.
- `BufferWriter.addTimer`: the `setTimeout` timer is time, and a forced flush is an explicit `Flush(true)` call. The promise of `insertMany` is I/O: each call is an appended entry of `written`, and a failure of `insertMany` is swallowed by the source anyway. The constructor's `model` argument is not kept.
- BufferWriter.BufferWriter.constructor: `maxDocs` is an integer option. A non-numeric value, which JavaScript would compare after conversion, is not modelled, and `maxDocs` is fixed once constructed, although JavaScript code could reassign the public field.
- JsValue.Value: numbers are integers, so `String` of a fractional or huge number (exponent notation) is not modelled, and objects are opaque identities converting to `"[object Object]"` (arrays as values are not modelled).
- ArrayMethods.IndexOf: strict equality is Dafny equality, so the fact that `NaN` never equals itself is not modelled.
- ArrayMethods.RemoveKeys: the keys are a list of strings. A keys argument that is an object, which lodash's `each` would iterate by value, is not modelled.
- Registry: the source exports a single shared instance (`module.exports = new Registry`). The model is the class, and any object can be one.
- TrafficDistribution.TrafficDistribution.AllocateTraffic: it is proved equal to `Round`, which uses the intended `selectedId === null` test, not the source's `! selectedId` (`src/trafficdistribution.js:126`). The two differ only when a row has the empty id (`TrafficRound.EmptyIdSelectsTwice`), and `TrafficRound.RoundAsWrittenAgrees` proves them equal on every other table.
- StringMethods.Property: `obj[g]` reads own properties only. JavaScript also follows the prototype chain, so `makePrimaryKey({}, ["constructor"])` yields the text of the `Object` function in the source, but `" "` in the model.
- StringMethods.MakePrimaryKey: a `null` or `undefined` record, which makes the source throw a `TypeError`, cannot be passed; the record is always a map.
- ArrayMethods.Remove: a `null` or `undefined` array, which makes the source throw a `TypeError`, cannot be passed; the array is always an object.
- ArrayMethods.RemoveKeys: a `null` or `undefined` data object, which makes the source throw a `TypeError`, cannot be passed.
- The rest of the repository is not part of this model: the cache, database, security, mail and publish/subscribe wrappers, `index.js` and the examples.

## Findings

| source | as written | input that shows it | evidently intended | confidence | as-written member | corrected member |
|---|---|---|---|---|---|---|
| src/trafficdistribution.js:126 | `! selectedId` tests JavaScript truthiness, so a selected id `""`, a legal object key, does not block later rows. | Fraction map `{"": "1/2", B: "1/2"}` (quotas 1 and 1, cycle 2) with empty counters: the round answers `B`, and both counters keep their probe, so one request consumes two hits. | Only the first row that fits is selected and charged (`selectedId === null`). | not executed | TrafficRound.EmptyIdSelectsTwice | TrafficRound.RoundSelectsFirstFit |
