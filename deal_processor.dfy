/**
 * The deal processor: one consumer of a deal stream that keeps, per symbol,
 * a window index of recent deals, and for every incoming deal evicts the
 * stale prefix, reports at most one "similar order" warning, and records the
 * deal.
 *
 * `Step` and `Run` are the specification of one deal and of a stream of
 * deals; the class `DealProcessor` is the imperative model, and its methods
 * are proved to follow them.
 */
module DealProcessing {
  import opened Wrappers
  import opened Deals
  import opened WindowIndex

  /** The processor's state: one window index per symbol seen so far. */
  type IndexedDeals<S> = map<string, OpenTimeIndex<S>>

  /** One element of the stream as the processor meets it: the deal, the
      wall-clock reading (Unix seconds) taken while processing it, and
      whether cancellation had been requested when it was dequeued. */
  datatype Arrival<S> = Arrival(deal: Deal<S>, now: int, cancelRequested: bool)

  datatype StepResult<S> = StepResult(indexed: IndexedDeals<S>, warning: Option<Warning<S>>)

  datatype RunResult<S> = RunResult(indexed: IndexedDeals<S>, log: seq<Warning<S>>)

  datatype Outcome = Completed | Cancelled

  ghost predicate WellFormed<S>(indexed: IndexedDeals<S>)
  {
    forall symbol :: symbol in indexed ==> WellFormedIndex(indexed[symbol], symbol)
  }

  function Lookup<S>(indexed: IndexedDeals<S>, symbol: string): Option<OpenTimeIndex<S>>
  {
    if symbol in indexed then Some(indexed[symbol]) else None
  }

  function WarningsOf<S>(warning: Option<Warning<S>>): seq<Warning<S>>
  {
    if warning.Some? then [warning.value] else []
  }

  /** The similarity window of `deal`. */
  function WindowFor<S>(deal: Deal<S>, config: Config): Window
  {
    Window(deal.openTime - config.openTimeDeltaSeconds,
           deal.openTime + config.openTimeDeltaSeconds,
           deal.volumeToBalanceRate - config.volumeToBalanceTolerance,
           deal.volumeToBalanceRate + config.volumeToBalanceTolerance)
  }

  /** A slot is in the window of `deal` exactly when its open time is within
      the open-time delta of the deal's either way (inclusive) and its ratio
      is strictly within the tolerance of the deal's. */
  lemma WindowMatchesTolerances<S>(deal: Deal<S>, config: Config, t: int, q: real)
    ensures InWindow(WindowFor(deal, config), t, q) <==>
      && Distance(t, deal.openTime) <= config.openTimeDeltaSeconds
      && RatioDistance(q, deal.volumeToBalanceRate) < config.volumeToBalanceTolerance
  {
  }

  /** Processing one deal, as a function of the state before it. */
  ghost function Step<S>(indexed: IndexedDeals<S>, deal: Deal<S>, now: int, config: Config): StepResult<S>
  {
    if deal.symbol !in indexed then
      StepResult(indexed[deal.symbol := CreateIndexedData(deal)], None)
    else
      var cleaned := Evicted(indexed[deal.symbol], now - config.cacheThresholdSeconds);
      var warning := if HasSimilar(cleaned, WindowFor(deal, config))
                     then Some(Warning(deal.order, deal.serverId)) else None;
      StepResult(indexed[deal.symbol := TryToAddDealToIndexedData(cleaned, deal)], warning)
  }

  /** Processing a whole stream, deal after deal, collecting the warnings. */
  ghost function Run<S>(indexed: IndexedDeals<S>, arrivals: seq<Arrival<S>>, config: Config): RunResult<S>
    decreases |arrivals|
  {
    if arrivals == [] then RunResult(indexed, [])
    else
      var before := Run(indexed, arrivals[..|arrivals| - 1], config);
      var last := arrivals[|arrivals| - 1];
      var step := Step(before.indexed, last.deal, last.now, config);
      RunResult(step.indexed, before.log + WarningsOf(step.warning))
  }

  /** The position of the first arrival at which cancellation is observed,
      or the length of the stream if there is none. */
  function CancelPoint<S>(arrivals: seq<Arrival<S>>): (k: nat)
    ensures k <= |arrivals|
    ensures forall i :: 0 <= i < k ==> !arrivals[i].cancelRequested
    ensures k < |arrivals| ==> arrivals[k].cancelRequested
  {
    if arrivals == [] || arrivals[0].cancelRequested then 0
    else 1 + CancelPoint(arrivals[1..])
  }

  /** The arrivals of `arrivals` whose deal is on `symbol`, in order. */
  ghost function OnSymbol<S>(arrivals: seq<Arrival<S>>, symbol: string): seq<Arrival<S>>
    decreases |arrivals|
  {
    if arrivals == [] then []
    else
      var init := OnSymbol(arrivals[..|arrivals| - 1], symbol);
      var last := arrivals[|arrivals| - 1];
      if last.deal.symbol == symbol then init + [last] else init
  }

  /** A cached slot that would make `deal` warn, stated without windows:
      not yet stale at `now`, open time within the delta, ratio strictly
      within the tolerance. */
  ghost predicate RecentSimilar<S>(index: OpenTimeIndex<S>, deal: Deal<S>, now: int, config: Config, t: int, q: real)
  {
    && Occupied(index, t, q)
    && t > now - config.cacheThresholdSeconds
    && Distance(t, deal.openTime) <= config.openTimeDeltaSeconds
    && RatioDistance(q, deal.volumeToBalanceRate) < config.volumeToBalanceTolerance
  }

  class DealProcessor<S> {
    var indexedDeals: IndexedDeals<S>

    constructor ()
      ensures indexedDeals == map[]
    {
      indexedDeals := map[];
    }

    /** The body of the processing loop for one deal. */
    method ProcessDeal(deal: Deal<S>, now: int, config: Config) returns (warning: Option<Warning<S>>)
      modifies this
      ensures StepResult(indexedDeals, warning) == Step(old(indexedDeals), deal, now, config)
    {
      var indexed := indexedDeals;
      if deal.symbol !in indexed {
        indexedDeals := indexed[deal.symbol := CreateIndexedData(deal)];
        return None;
      }
      var window := WindowFor(deal, config);
      var firstRelevantOpenTime := now - config.cacheThresholdSeconds;
      var indexedDataForSymbol := indexed[deal.symbol];

      indexedDataForSymbol := CleanFromExpiredData(firstRelevantOpenTime, indexedDataForSymbol);

      var firstSimilarDeal;
      ghost var openTime, ratio;
      firstSimilarDeal, openTime, ratio := FindFirstSimilar(indexedDataForSymbol, window);
      if firstSimilarDeal.Some? {
        warning := Some(Warning(deal.order, deal.serverId));
      } else {
        warning := None;
      }
      indexedDeals := indexed[deal.symbol := TryToAddDealToIndexedData(indexedDataForSymbol, deal)];
    }

    /** Consumes the stream in order until it ends or cancellation is
        observed, returning the warnings logged on the way. */
    method Watch(arrivals: seq<Arrival<S>>, config: Config) returns (log: seq<Warning<S>>, outcome: Outcome)
      modifies this
      ensures var k := CancelPoint(arrivals);
        && (outcome == Cancelled <==> k < |arrivals|)
        && indexedDeals == Run(old(indexedDeals), arrivals[..k], config).indexed
        && log == Run(old(indexedDeals), arrivals[..k], config).log
    {
      log := [];
      var i := 0;
      while i < |arrivals|
        invariant 0 <= i <= |arrivals|
        invariant forall j :: 0 <= j < i ==> !arrivals[j].cancelRequested
        invariant RunResult(indexedDeals, log) == Run(old(indexedDeals), arrivals[..i], config)
      {
        if arrivals[i].cancelRequested {
          CancelPointIsFirstCancel(arrivals, i);
          outcome := Cancelled;
          return;
        }
        RunExtends(old(indexedDeals), arrivals, i, config);
        var warning := ProcessDeal(arrivals[i].deal, arrivals[i].now, config);
        log := log + WarningsOf(warning);
        i := i + 1;
      }
      CancelPointIsFirstCancel(arrivals, i);
      assert arrivals[..|arrivals|] == arrivals;
      outcome := Completed;
    }
  }

  /** A stream one arrival longer is one more step. */
  lemma RunExtends<S>(indexed: IndexedDeals<S>, arrivals: seq<Arrival<S>>, i: nat, config: Config)
    requires i < |arrivals|
    ensures var before := Run(indexed, arrivals[..i], config);
      var step := Step(before.indexed, arrivals[i].deal, arrivals[i].now, config);
      Run(indexed, arrivals[..i + 1], config) == RunResult(step.indexed, before.log + WarningsOf(step.warning))
  {
    assert arrivals[..i + 1][..i] == arrivals[..i];
  }

  /** The cancel point is the first arrival that observes cancellation. */
  lemma CancelPointIsFirstCancel<S>(arrivals: seq<Arrival<S>>, i: nat)
    requires i <= |arrivals|
    requires forall j :: 0 <= j < i ==> !arrivals[j].cancelRequested
    requires i < |arrivals| ==> arrivals[i].cancelRequested
    ensures CancelPoint(arrivals) == i
  {
  }

  /** The first deal on a symbol creates that symbol's index holding exactly
      that deal; nothing is evicted and no warning is emitted. */
  lemma FirstSightingCreatesIndex<S>(indexed: IndexedDeals<S>, deal: Deal<S>, now: int, config: Config)
    requires deal.symbol !in indexed
    ensures var r := Step(indexed, deal, now, config);
      && r.warning == None
      && r.indexed.Keys == indexed.Keys + {deal.symbol}
      && (forall t, q :: Occupied(r.indexed[deal.symbol], t, q) <==>
            t == deal.openTime && q == deal.volumeToBalanceRate)
      && r.indexed[deal.symbol][deal.openTime][deal.volumeToBalanceRate] == deal
  {
  }

  /** A step changes no symbol's index except the incoming deal's. */
  lemma StepChangesOnlyOwnSymbol<S>(indexed: IndexedDeals<S>, deal: Deal<S>, now: int, config: Config)
    ensures var r := Step(indexed, deal, now, config);
      && r.indexed.Keys == indexed.Keys + {deal.symbol}
      && forall symbol :: symbol in indexed && symbol != deal.symbol ==> r.indexed[symbol] == indexed[symbol]
  {
  }

  /** A step reads no symbol's index except the incoming deal's: two states
      that agree on that symbol give the same warning and the same new index. */
  lemma StepReadsOnlyOwnSymbol<S>(a: IndexedDeals<S>, b: IndexedDeals<S>, deal: Deal<S>, now: int, config: Config)
    requires Lookup(a, deal.symbol) == Lookup(b, deal.symbol)
    ensures Step(a, deal, now, config).warning == Step(b, deal, now, config).warning
    ensures Lookup(Step(a, deal, now, config).indexed, deal.symbol)
         == Lookup(Step(b, deal, now, config).indexed, deal.symbol)
  {
  }

  /** A warning is emitted exactly when the symbol was seen before and its
      index holds a slot that is not stale at `now`, lies within the open-time
      delta and strictly within the ratio tolerance; the warning names the
      incoming deal. */
  lemma WarnsIffRecentSimilar<S>(indexed: IndexedDeals<S>, deal: Deal<S>, now: int, config: Config)
    ensures var r := Step(indexed, deal, now, config);
      r.warning.Some? <==>
        deal.symbol in indexed &&
        exists t, q :: RecentSimilar(indexed[deal.symbol], deal, now, config, t, q)
    ensures var r := Step(indexed, deal, now, config);
      r.warning.Some? ==> r.warning.value == Warning(deal.order, deal.serverId)
  {
    if deal.symbol in indexed {
      var index := indexed[deal.symbol];
      var w := WindowFor(deal, config);
      var cleaned := Evicted(index, now - config.cacheThresholdSeconds);
      if HasSimilar(cleaned, w) {
        var t, q :| Similar(cleaned, w, t, q);
        WindowMatchesTolerances(deal, config, t, q);
        assert RecentSimilar(index, deal, now, config, t, q);
      }
      if exists t, q :: RecentSimilar(index, deal, now, config, t, q) {
        var t, q :| RecentSimilar(index, deal, now, config, t, q);
        WindowMatchesTolerances(deal, config, t, q);
        assert Similar(cleaned, w, t, q);
      }
    }
  }

  /** After a step the incoming deal's slot is taken: by the earlier deal if
      that one is still cached, otherwise by the incoming deal. The open
      times of the symbol's index are the surviving ones plus the deal's own,
      and every surviving slot keeps its deal. */
  lemma StepEvictsThenInserts<S>(indexed: IndexedDeals<S>, deal: Deal<S>, now: int, config: Config)
    ensures var r := Step(indexed, deal, now, config);
      var before := if deal.symbol in indexed then indexed[deal.symbol] else map[];
      var threshold := now - config.cacheThresholdSeconds;
      var after := r.indexed[deal.symbol];
      && (forall t :: t in after <==> t == deal.openTime || (t in before && (deal.symbol !in indexed || t > threshold)))
      && (forall t, q :: Occupied(before, t, q) && t > threshold ==> Occupied(after, t, q) && after[t][q] == before[t][q])
      && Occupied(after, deal.openTime, deal.volumeToBalanceRate)
      && after[deal.openTime][deal.volumeToBalanceRate] ==
           if deal.symbol in indexed && Occupied(before, deal.openTime, deal.volumeToBalanceRate)
              && deal.openTime > threshold
           then before[deal.openTime][deal.volumeToBalanceRate]
           else deal
  {
  }

  /** Every step keeps each cached deal under its own symbol, open time and
      ratio. */
  lemma StepKeepsWellFormed<S>(indexed: IndexedDeals<S>, deal: Deal<S>, now: int, config: Config)
    requires WellFormed(indexed)
    ensures WellFormed(Step(indexed, deal, now, config).indexed)
  {
    if deal.symbol in indexed {
      var threshold := now - config.cacheThresholdSeconds;
      EvictionKeepsWellFormed(indexed[deal.symbol], threshold, deal.symbol);
      InsertionKeepsWellFormed(Evicted(indexed[deal.symbol], threshold), deal);
    } else {
      CreationIsWellFormed(deal);
    }
  }

  /** Every stream keeps each cached deal under its own symbol, open time
      and ratio. */
  lemma {:induction false} RunKeepsWellFormed<S>(indexed: IndexedDeals<S>, arrivals: seq<Arrival<S>>, config: Config)
    requires WellFormed(indexed)
    ensures WellFormed(Run(indexed, arrivals, config).indexed)
    decreases |arrivals|
  {
    if arrivals != [] {
      var init := arrivals[..|arrivals| - 1];
      var last := arrivals[|arrivals| - 1];
      RunKeepsWellFormed(indexed, init, config);
      StepKeepsWellFormed(Run(indexed, init, config).indexed, last.deal, last.now, config);
    }
  }

  /** The index a stream leaves for `symbol` is the one the deals on that
      symbol alone would leave: deals on other symbols never interfere. */
  lemma {:induction false} SymbolsAreIsolated<S>(indexed: IndexedDeals<S>, arrivals: seq<Arrival<S>>, config: Config, symbol: string)
    ensures Lookup(Run(indexed, arrivals, config).indexed, symbol)
         == Lookup(Run(indexed, OnSymbol(arrivals, symbol), config).indexed, symbol)
    decreases |arrivals|
  {
    if arrivals != [] {
      var init := arrivals[..|arrivals| - 1];
      var last := arrivals[|arrivals| - 1];
      SymbolsAreIsolated(indexed, init, config, symbol);
      var filtered := OnSymbol(init, symbol);
      if last.deal.symbol == symbol {
        assert OnSymbol(arrivals, symbol) == filtered + [last];
        assert (filtered + [last])[..|filtered + [last]| - 1] == filtered;
        StepReadsOnlyOwnSymbol(Run(indexed, init, config).indexed, Run(indexed, filtered, config).indexed,
                               last.deal, last.now, config);
      } else {
        assert OnSymbol(arrivals, symbol) == filtered;
        StepChangesOnlyOwnSymbol(Run(indexed, init, config).indexed, last.deal, last.now, config);
      }
    }
  }

  /** Whether the i-th deal warns depends only on the earlier deals on its
      own symbol. */
  lemma WarningSeesOnlyOwnSymbol<S>(indexed: IndexedDeals<S>, arrivals: seq<Arrival<S>>, i: nat, config: Config)
    requires i < |arrivals|
    ensures var a := arrivals[i];
      Step(Run(indexed, arrivals[..i], config).indexed, a.deal, a.now, config).warning
      == Step(Run(indexed, OnSymbol(arrivals[..i], a.deal.symbol), config).indexed, a.deal, a.now, config).warning
  {
    var a := arrivals[i];
    SymbolsAreIsolated(indexed, arrivals[..i], config, a.deal.symbol);
    StepReadsOnlyOwnSymbol(Run(indexed, arrivals[..i], config).indexed,
                           Run(indexed, OnSymbol(arrivals[..i], a.deal.symbol), config).indexed,
                           a.deal, a.now, config);
  }

  /** `positions` lists, in increasing order, arrivals of `arrivals` whose
      deals are named one by one by the warnings of `log`. */
  ghost predicate NamesArrivals<S>(arrivals: seq<Arrival<S>>, log: seq<Warning<S>>, positions: seq<nat>)
  {
    && |positions| == |log| <= |arrivals|
    && (forall j :: 0 <= j < |positions| ==> positions[j] < |arrivals|)
    && (forall j, k :: 0 <= j < k < |positions| ==> positions[j] < positions[k])
    && forall j :: 0 <= j < |positions| ==>
         log[j] == Warning(arrivals[positions[j]].deal.order, arrivals[positions[j]].deal.serverId)
  }

  /** The step of arrival `i` emitted a warning. */
  ghost predicate Warned<S>(indexed: IndexedDeals<S>, arrivals: seq<Arrival<S>>, config: Config, i: nat)
    requires i < |arrivals|
  {
    Step(Run(indexed, arrivals[..i], config).indexed, arrivals[i].deal, arrivals[i].now, config).warning.Some?
  }

  /** Whether an arrival warned does not depend on the arrivals after it. */
  lemma WarnedInPrefix<S>(indexed: IndexedDeals<S>, arrivals: seq<Arrival<S>>, n: nat, config: Config, i: nat)
    requires i < n <= |arrivals|
    ensures Warned(indexed, arrivals[..n], config, i) == Warned(indexed, arrivals, config, i)
  {
    assert arrivals[..n][..i] == arrivals[..i];
  }

  /** Appending one arrival, and at most the warning naming it, keeps the
      positions honest; the new arrival's position is added exactly when it
      warned. */
  lemma NamesArrivalsExtend<S>(init: seq<Arrival<S>>, last: Arrival<S>, log: seq<Warning<S>>,
                               positions: seq<nat>, warning: Option<Warning<S>>)
    returns (extended: seq<nat>)
    requires NamesArrivals(init, log, positions)
    requires warning.Some? ==> warning.value == Warning(last.deal.order, last.deal.serverId)
    ensures NamesArrivals(init + [last], log + WarningsOf(warning), extended)
    ensures forall i :: i in extended <==> i in positions || (i == |init| && warning.Some?)
  {
    var arrivals := init + [last];
    assert forall j :: 0 <= j < |positions| ==> arrivals[positions[j]] == init[positions[j]];
    extended := if warning.Some? then positions + [|init|] else positions;
  }

  /** The log holds one warning per deal that warned and no other, in stream
      order, and each names the deal that raised it: `positions` lists, in
      increasing order, exactly the arrivals whose step emitted a warning. */
  lemma {:induction false} WarningsNameIncomingDeals<S>(indexed: IndexedDeals<S>, arrivals: seq<Arrival<S>>, config: Config)
    returns (positions: seq<nat>)
    ensures NamesArrivals(arrivals, Run(indexed, arrivals, config).log, positions)
    ensures forall i :: 0 <= i < |arrivals| ==> (i in positions <==> Warned(indexed, arrivals, config, i))
    decreases |arrivals|
  {
    if arrivals == [] {
      positions := [];
    } else {
      var n := |arrivals| - 1;
      var init := arrivals[..n];
      var last := arrivals[n];
      var before := Run(indexed, init, config);
      var warning := Step(before.indexed, last.deal, last.now, config).warning;
      assert Run(indexed, arrivals, config).log == before.log + WarningsOf(warning);
      var earlier := WarningsNameIncomingDeals(indexed, init, config);
      assert arrivals == init + [last];
      positions := NamesArrivalsExtend(init, last, before.log, earlier, warning);
      forall i | 0 <= i < |arrivals|
        ensures i in positions <==> Warned(indexed, arrivals, config, i)
      {
        if i < n {
          WarnedInPrefix(indexed, arrivals, n, config, i);
          assert i in earlier <==> Warned(indexed, init, config, i);
        } else {
          assert n !in earlier;
        }
      }
    }
  }

  /** Two deals on one symbol, from a fresh processor: the second warns
      exactly when the first is not stale at the second's processing time,
      their open times differ by at most the delta and their ratios by
      strictly less than the tolerance. */
  lemma SecondDealWarnsIff<S>(first: Arrival<S>, second: Arrival<S>, config: Config)
    requires first.deal.symbol == second.deal.symbol
    ensures Run(map[], [first, second], config).log ==
      if && first.deal.openTime > second.now - config.cacheThresholdSeconds
         && Distance(first.deal.openTime, second.deal.openTime) <= config.openTimeDeltaSeconds
         && RatioDistance(first.deal.volumeToBalanceRate, second.deal.volumeToBalanceRate)
              < config.volumeToBalanceTolerance
      then [Warning(second.deal.order, second.deal.serverId)]
      else []
  {
    var d1, d2 := first.deal, second.deal;
    assert [first, second][..1] == [first];
    assert [first][..0] == [];
    var s1: IndexedDeals<S> := map[d1.symbol := CreateIndexedData(d1)];
    assert Run(map[], [first], config) == RunResult(s1, []);
    WarnsIffRecentSimilar(s1, d2, second.now, config);
    if exists t, q :: RecentSimilar(s1[d2.symbol], d2, second.now, config, t, q) {
      var t, q :| RecentSimilar(s1[d2.symbol], d2, second.now, config, t, q);
      assert t == d1.openTime && q == d1.volumeToBalanceRate;
    } else {
      assert !RecentSimilar(s1[d2.symbol], d2, second.now, config, d1.openTime, d1.volumeToBalanceRate);
    }
  }

  /** Two deals on one symbol, from a fresh processor: the symbol's index
      then holds the second deal's slot, and the first deal's slot exactly
      when the first deal was not stale at the second's processing time. */
  lemma SecondDealIndex<S>(first: Arrival<S>, second: Arrival<S>, config: Config)
    requires first.deal.symbol == second.deal.symbol
    ensures var indexed := Run(map[], [first, second], config).indexed;
      && indexed.Keys == {first.deal.symbol}
      && forall t, q :: Occupied(indexed[first.deal.symbol], t, q) <==>
           || (t == second.deal.openTime && q == second.deal.volumeToBalanceRate)
           || (&& t == first.deal.openTime && q == first.deal.volumeToBalanceRate
               && first.deal.openTime > second.now - config.cacheThresholdSeconds)
  {
    var d1, d2 := first.deal, second.deal;
    assert [first, second][..1] == [first];
    assert [first][..0] == [];
    var s1: IndexedDeals<S> := map[d1.symbol := CreateIndexedData(d1)];
    assert Run(map[], [first], config) == RunResult(s1, []);
    var cleaned := Evicted(s1[d1.symbol], second.now - config.cacheThresholdSeconds);
    InsertionKeepsFirstDeal(cleaned, d2);
  }

  /** Ratios exactly the tolerance apart never warn. */
  lemma RatioToleranceIsExclusive<S>(first: Arrival<S>, second: Arrival<S>, config: Config)
    requires first.deal.symbol == second.deal.symbol
    requires RatioDistance(first.deal.volumeToBalanceRate, second.deal.volumeToBalanceRate)
               == config.volumeToBalanceTolerance
    ensures Run(map[], [first, second], config).log == []
  {
    SecondDealWarnsIff(first, second, config);
  }

  /** Open times exactly the delta apart warn, when the ratios are close and
      the first deal is still cached. */
  lemma OpenTimeDeltaIsInclusive<S>(first: Arrival<S>, second: Arrival<S>, config: Config)
    requires first.deal.symbol == second.deal.symbol
    requires Distance(first.deal.openTime, second.deal.openTime) == config.openTimeDeltaSeconds
    requires RatioDistance(first.deal.volumeToBalanceRate, second.deal.volumeToBalanceRate)
               < config.volumeToBalanceTolerance
    requires first.deal.openTime > second.now - config.cacheThresholdSeconds
    ensures Run(map[], [first, second], config).log == [Warning(second.deal.order, second.deal.serverId)]
  {
    SecondDealWarnsIff(first, second, config);
  }
}
