# Deal processor: windowed similarity detection

This project models the deal processor of the Watchdog deals monitor
(`DealProcessor<TServerId>`) and proves properties of the model. The
processor consumes a stream of executed MT5 deals. For each symbol it keeps
a cache of recent deals in a two-level sorted index: open time (Unix
seconds), then volume-to-balance ratio, then the deal that first took that
slot.

For every incoming deal:

- **First deal on a symbol.** It creates the symbol's index holding only
  that deal and goes on to the next deal.
- **Later deals.** It:
  1. drops every open-time key at or before `now - cache threshold`, where
     `now` is the wall clock;
  2. scans the index in ascending order for the first cached deal whose
     open time is within the open-time delta (inclusive) and whose ratio is
     strictly within the ratio tolerance;
  3. logs at most one "similar order found" warning, which names the
     *incoming* deal's order and server;
  4. inserts the deal unless its (open time, ratio) slot is already taken.

Files:

- `wrappers.dfy`: `Option`.
- `deals.dfy`: the deal record, the monitor configuration and the warning.
- `window_index.dfy`: the per-symbol index and its operations:
  - prefix eviction, a method with two loops;
  - the nested ascending scan, a method for the outer loop and one for the
    inner loop;
  - insert-if-absent and index creation, as functions.

  Sorted dictionaries are Dafny maps. Ascending enumeration is modelled as
  repeatedly taking the least key not yet visited.
- `deal_processor.dfy`: the specification of one step (`Step`) and of a
  whole stream (`Run`), and the class `DealProcessor`. The class holds the
  per-symbol indexes in a field. Its `ProcessDeal` (the loop body) and
  `Watch` (the loop) are proved to follow `Step` and `Run`. The lemmas
  state what a step and a stream guarantee.
- `scenarios.dfy`: the three integration scenarios. Each is stated twice:
  as a fact about `Run`, and as a run of a fresh `DealProcessor`.

Clock readings and cancellation are inputs. Each `Arrival` carries the
deal, the wall-clock time read while processing it, and whether
cancellation had been requested when it was dequeued. In the scenarios,
`T` is the time at which the test builds its deals. `p1`, `p2` and `p3`
are the processing times.

The expired-hit scenario's two deals are 28 s apart, but its open-time
delta is 20 s. So the second deal would not warn even without eviction.
`ExpiredHitScenario` therefore also proves that the first deal has been
evicted once the second is processed at or after `T - 19`.

## Model

| member | source | states |
|---|---|---|
| WindowIndex.CleanFromExpiredData | PurpleTechnology.Watchdog.DealsMonitor/DealProcessor.cs:66-75 | the cleaned index keeps exactly the open-time keys after `firstRelevantOpenTime`, each with its inner ratio map unchanged; it equals the reference `Evicted` |
| WindowIndex.ScanRatios | PurpleTechnology.Watchdog.DealsMonitor/DealProcessor.cs:48-55 | finds nothing iff no ratio lies strictly between the bounds; otherwise it returns the deal at the least such ratio |
| WindowIndex.FindFirstSimilar | PurpleTechnology.Watchdog.DealsMonitor/DealProcessor.cs:41-61 | finds nothing iff no slot lies in the window (open time inclusive, ratio exclusive); otherwise the deal found sits at the first such slot in ascending (open time, ratio) order |
| WindowIndex.InsertionKeepsFirstDeal | PurpleTechnology.Watchdog.DealsMonitor/DealProcessor.cs:77-94 | a taken slot leaves the index unchanged, so the earlier deal stays; a free slot receives the deal; the occupied slots are the old ones plus the deal's; every old slot keeps its deal; the open times gain only the deal's |
| WindowIndex.CreateIndexedData | PurpleTechnology.Watchdog.DealsMonitor/DealProcessor.cs:96-103 | the new index has the deal's open time as its only key and the deal's slot as its only occupied slot, holding the deal |
| WindowIndex.EvictionKeepsWellFormed | PurpleTechnology.Watchdog.DealsMonitor/DealProcessor.cs:66-75 | eviction keeps every deal under its own symbol, open time and ratio, and leaves no empty open-time entry |
| WindowIndex.InsertionKeepsWellFormed | PurpleTechnology.Watchdog.DealsMonitor/DealProcessor.cs:77-94 | insertion keeps every deal under its own symbol, open time and ratio, and leaves no empty open-time entry |
| WindowIndex.CreationIsWellFormed | PurpleTechnology.Watchdog.DealsMonitor/DealProcessor.cs:96-103 | a newly created index is well formed |
| DealProcessing.WindowMatchesTolerances | PurpleTechnology.Watchdog.DealsMonitor/DealProcessor.cs:32-35 | a slot is in the deal's window iff its open time is within the delta either way (inclusive) and its ratio is strictly within the tolerance |
| DealProcessing.CancelPoint | PurpleTechnology.Watchdog.DealsMonitor/DealProcessor.cs:26 | the first position where cancellation is observed, or the stream length: no earlier arrival observes it |
| DealProcessing.CancelPointIsFirstCancel | PurpleTechnology.Watchdog.DealsMonitor/DealProcessor.cs:25-26 | any position with no earlier cancellation and a cancellation there, or at the end, is the cancel point |
| DealProcessing.DealProcessor.constructor | PurpleTechnology.Watchdog.DealsMonitor/DealProcessor.cs:14 | a new processor has no symbol indexes |
| DealProcessing.DealProcessor.ProcessDeal | PurpleTechnology.Watchdog.DealsMonitor/DealProcessor.cs:28-62 | the new per-symbol state and the warning are exactly those of the step specification `Step` |
| DealProcessing.DealProcessor.Watch | PurpleTechnology.Watchdog.DealsMonitor/DealProcessor.cs:18-64 | the outcome is Cancelled iff some arrival observes cancellation; the state and the log are those of `Run` over the arrivals before the cancel point |
| DealProcessing.RunExtends | PurpleTechnology.Watchdog.DealsMonitor/DealProcessor.cs:25-63 | proof step for `Watch`'s loop invariant, not a property of the processor: `Run` over the first i+1 arrivals is one `Step` after `Run` over the first i |
| DealProcessing.FirstSightingCreatesIndex | PurpleTechnology.Watchdog.DealsMonitor/DealProcessor.cs:28-31 | a symbol's first deal emits no warning, adds only that symbol, and leaves an index holding exactly that deal at its slot |
| DealProcessing.StepChangesOnlyOwnSymbol | PurpleTechnology.Watchdog.DealsMonitor/DealProcessor.cs:28-37 | a step adds at most the deal's symbol and leaves every other symbol's index unchanged |
| DealProcessing.StepReadsOnlyOwnSymbol | PurpleTechnology.Watchdog.DealsMonitor/DealProcessor.cs:28-37 | two states with the same index (or none) for the deal's symbol give the same warning and the same new index for it |
| DealProcessing.WarnsIffRecentSimilar | PurpleTechnology.Watchdog.DealsMonitor/DealProcessor.cs:32-61 | a warning is emitted iff the symbol was seen before and holds a deal that is not stale at `now`, within the open-time delta and strictly within the ratio tolerance; the warning names the incoming deal's order and server |
| DealProcessing.StepEvictsThenInserts | PurpleTechnology.Watchdog.DealsMonitor/DealProcessor.cs:36-62 | after a step the open times are the surviving ones plus the deal's; surviving slots keep their deals; the deal's slot holds the earlier deal if that one survived, otherwise the incoming deal |
| DealProcessing.StepKeepsWellFormed | PurpleTechnology.Watchdog.DealsMonitor/DealProcessor.cs:28-62 | a step keeps every cached deal under its own symbol, open time and ratio |
| DealProcessing.RunKeepsWellFormed | PurpleTechnology.Watchdog.DealsMonitor/DealProcessor.cs:25-63 | a whole stream keeps every cached deal under its own symbol, open time and ratio |
| DealProcessing.SymbolsAreIsolated | PurpleTechnology.Watchdog.DealsMonitor/DealProcessor.cs:28-37 | the index a stream leaves for a symbol is the one the stream's deals on that symbol alone would leave |
| DealProcessing.WarningSeesOnlyOwnSymbol | PurpleTechnology.Watchdog.DealsMonitor/DealProcessor.cs:28-37 | whether a deal warns depends only on the earlier deals on its own symbol |
| DealProcessing.WarnedInPrefix | PurpleTechnology.Watchdog.DealsMonitor/DealProcessor.cs:25-63 | whether an arrival warns does not depend on the arrivals after it: it is the same in any prefix that contains it |
| DealProcessing.NamesArrivalsExtend | PurpleTechnology.Watchdog.DealsMonitor/DealProcessor.cs:57-59 | appending an arrival, and at most the warning naming it, keeps the log's positions increasing and matched to their deals; the new position is added exactly when there is a warning |
| DealProcessing.WarningsNameIncomingDeals | PurpleTechnology.Watchdog.DealsMonitor/DealProcessor.cs:25-63 | the log lists, in stream order, one warning for each arrival whose step warned and none for any other; each warning names the order and server of that arrival's deal |
| DealProcessing.SecondDealWarnsIff | PurpleTechnology.Watchdog.DealsMonitor/DealProcessor.cs:28-61 | from a fresh processor, a second deal on a symbol warns iff the first is not stale, their open times are at most the delta apart, and their ratios are strictly less than the tolerance apart |
| DealProcessing.SecondDealIndex | PurpleTechnology.Watchdog.DealsMonitor/DealProcessor.cs:36-62 | after two deals on one symbol, the index holds the second deal's slot, and the first's exactly when the first was not stale |
| DealProcessing.RatioToleranceIsExclusive | PurpleTechnology.Watchdog.DealsMonitor/DealProcessor.cs:50-51 | ratios exactly the tolerance apart never warn |
| DealProcessing.OpenTimeDeltaIsInclusive | PurpleTechnology.Watchdog.DealsMonitor/DealProcessor.cs:45-46 | open times exactly the delta apart do warn, when the ratios are close and the first deal is cached |
| IntegrationScenarios.VolumeToBalanceRatioScenario | PurpleTechnology.Watchdog.DealsMonitor.Tests/IntegrationTests.cs:19-88 | with tolerance 0.05, cache 1000 s and delta 20 s, ratios 1, 1.04 and 0.96 log exactly the warnings for orders 2 and 3 |
| IntegrationScenarios.OpenTimeDeltaScenario | PurpleTechnology.Watchdog.DealsMonitor.Tests/IntegrationTests.cs:90-159 | with delta 2 s, only order 2 warns |
| IntegrationScenarios.ExpiredHitScenario | PurpleTechnology.Watchdog.DealsMonitor.Tests/IntegrationTests.cs:161-211 | with cache 10 s and deals 28 s apart nothing is logged, and the first deal has been evicted |
| IntegrationScenarios.TestVolumeToBalanceRatioThreshold | PurpleTechnology.Watchdog.DealsMonitor.Tests/IntegrationTests.cs:19-88 | a fresh processor completes the first scenario with exactly the warnings for orders 2 and 3 |
| IntegrationScenarios.TestOpenDeltaTime | PurpleTechnology.Watchdog.DealsMonitor.Tests/IntegrationTests.cs:90-159 | a fresh processor completes the second scenario with only the warning for order 2 |
| IntegrationScenarios.TestExpiredHit | PurpleTechnology.Watchdog.DealsMonitor.Tests/IntegrationTests.cs:161-211 | a fresh processor completes the third scenario with an empty log |

## Left out

- `DealsMonitor.cs` is not part of this model:
  - MT5 connections and event subscription;
  - the bounded channels and the two concurrent `Watch` tasks;
  - disposal;
  - the ratio computation, which calls the foreign balance lookup;
  - routing: sells and buys go to their own processor and other actions are dropped.
- Asynchronous enumeration, back-pressure and task scheduling: the stream is a finite sequence of arrivals.
- The wall clock is not read by the model: each arrival carries the reading taken while processing it.
- Logger calls and the message text: a warning is the pair (order, server), and the log is a sequence of them.
- DealProcessing.DealProcessor.Watch: cancellation is modelled as an early stop at the first arrival that observes it. The thrown `OperationCanceledException` becomes an `Outcome`, and the state stays as left by the deals before it.
- Configuration time spans are whole seconds. The `double` value of `OpenTimeDelta.TotalSeconds` and the `(long)` truncation of the cache threshold are not modelled, because with whole seconds both are exact.
- C# `decimal` rounding is not modelled: ratios and tolerances are exact reals.
- Two exception paths are out of scope: `ContainsKey` throws for a null symbol, and decimal `+`/`-` on the ratio bounds throws near `decimal.MaxValue`. Dafny strings cannot be null and reals cannot overflow, so the model has neither.
- 64-bit overflow of `long` open times and of the window bounds is not modelled, because integers are unbounded.
- The source mutates the inner sorted dictionary in place. That dictionary is shared with `_indexedDeals`. The model passes the symbol's index by value to the eviction, scan and insertion, and writes it back into the processor's field. `TryToAddDealToIndexedData` and `CreateIndexedData` are functions on that value.
- The order of sorted enumeration is modelled by taking the least remaining key. The red-black tree behind `SortedDictionary` is not modelled.
- The test harness is not modelled. That covers the mocks, and the open times being built from separate clock reads: the scenarios use one reading `T` for all of them.
