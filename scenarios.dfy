/**
 * The three integration scenarios of the processor, as facts about the
 * stream specification and as runs of a fresh `DealProcessor`.
 *
 * `T` is the Unix time read when the test deals are built (all open times
 * are relative to it); `p1`, `p2`, `p3` are the clock readings taken while
 * each deal is processed. No cancellation is ever requested.
 */
module IntegrationScenarios {
  import opened Wrappers
  import opened Deals
  import opened WindowIndex
  import opened DealProcessing

  const Symbol: string := "EURCZK"
  const Server: string := "TestServer"

  /** A test deal: login 123, a sell on EURCZK from "TestServer". */
  function TestDeal(order: nat, openTime: int, ratio: real): (d: Deal<string>)
    ensures d.symbol == Symbol && d.order == order && d.serverId == Server
    ensures d.openTime == openTime && d.volumeToBalanceRate == ratio
  {
    Deal(123, Symbol, Sell, order, openTime, ratio, Server)
  }

  function Uncancelled(deal: Deal<string>, now: int): Arrival<string>
  {
    Arrival(deal, now, false)
  }

  /** Ratio tolerance 0.05, cache 1000 s, open-time delta 20 s; ratios 1,
      1.04 and 0.96 opened 2 s, 1 s and 0 s before `T`. The second and the
      third deal each warn once, as long as the first one is still cached
      when they are processed. */
  lemma VolumeToBalanceRatioScenario(T: int, p1: int, p2: int, p3: int)
    requires p2 <= T + 997 && p3 <= T + 997
    ensures var config := Config(0.05, 1000, 20);
      var arrivals := [Uncancelled(TestDeal(1, T - 2, 1.0), p1),
                       Uncancelled(TestDeal(2, T - 1, 1.04), p2),
                       Uncancelled(TestDeal(3, T, 0.96), p3)];
      Run(map[], arrivals, config).log == [Warning(2, Server), Warning(3, Server)]
  {
    var config := Config(0.05, 1000, 20);
    var a1, a2 := Uncancelled(TestDeal(1, T - 2, 1.0), p1), Uncancelled(TestDeal(2, T - 1, 1.04), p2);
    var a3 := Uncancelled(TestDeal(3, T, 0.96), p3);
    SecondDealWarnsIff(a1, a2, config);
    SecondDealIndex(a1, a2, config);
    assert [a1, a2, a3][..2] == [a1, a2];
    var before := Run(map[], [a1, a2], config);
    WarnsIffRecentSimilar(before.indexed, a3.deal, p3, config);
    assert RecentSimilar(before.indexed[Symbol], a3.deal, p3, config, T - 2, 1.0);
  }

  /** Ratio tolerance 0.05, cache 1000 s, open-time delta 2 s; the same
      ratios opened 19 s, 18 s and 0 s before `T`. Only the second deal
      warns: the third is 18 s or more away from both cached deals. */
  lemma OpenTimeDeltaScenario(T: int, p1: int, p2: int, p3: int)
    requires p2 <= T + 980
    ensures var config := Config(0.05, 1000, 2);
      var arrivals := [Uncancelled(TestDeal(1, T - 19, 1.0), p1),
                       Uncancelled(TestDeal(2, T - 18, 1.04), p2),
                       Uncancelled(TestDeal(3, T, 0.96), p3)];
      Run(map[], arrivals, config).log == [Warning(2, Server)]
  {
    var config := Config(0.05, 1000, 2);
    var a1, a2 := Uncancelled(TestDeal(1, T - 19, 1.0), p1), Uncancelled(TestDeal(2, T - 18, 1.04), p2);
    var a3 := Uncancelled(TestDeal(3, T, 0.96), p3);
    SecondDealWarnsIff(a1, a2, config);
    SecondDealIndex(a1, a2, config);
    assert [a1, a2, a3][..2] == [a1, a2];
    var before := Run(map[], [a1, a2], config);
    WarnsIffRecentSimilar(before.indexed, a3.deal, p3, config);
  }

  /** Ratio tolerance 0.05, cache 10 s, open-time delta 20 s; equal ratios
      opened 29 s and 1 s before `T`. The second deal does not warn, and
      once it is processed at or after `T - 19` the first deal has been
      evicted, so the symbol's index holds the second deal alone. */
  lemma ExpiredHitScenario(T: int, p1: int, p2: int)
    ensures var config := Config(0.05, 10, 20);
      var arrivals := [Uncancelled(TestDeal(1, T - 29, 1.0), p1),
                       Uncancelled(TestDeal(2, T - 1, 1.0), p2)];
      var run := Run(map[], arrivals, config);
      && run.log == []
      && (p2 >= T - 19 ==>
            forall t, q :: Occupied(run.indexed[Symbol], t, q) <==> t == T - 1 && q == 1.0)
  {
    var config := Config(0.05, 10, 20);
    var a1, a2 := Uncancelled(TestDeal(1, T - 29, 1.0), p1), Uncancelled(TestDeal(2, T - 1, 1.0), p2);
    SecondDealWarnsIff(a1, a2, config);
    SecondDealIndex(a1, a2, config);
  }

  /** The first scenario run on a fresh processor: the stream completes and
      the log holds the warnings for orders 2 and 3. */
  method TestVolumeToBalanceRatioThreshold(T: int, p1: int, p2: int, p3: int)
    returns (log: seq<Warning<string>>, outcome: Outcome)
    requires p2 <= T + 997 && p3 <= T + 997
    ensures outcome == Completed && log == [Warning(2, Server), Warning(3, Server)]
  {
    var arrivals := [Uncancelled(TestDeal(1, T - 2, 1.0), p1),
                     Uncancelled(TestDeal(2, T - 1, 1.04), p2),
                     Uncancelled(TestDeal(3, T, 0.96), p3)];
    CancelPointIsFirstCancel(arrivals, 3);
    assert arrivals[..3] == arrivals;
    var processor := new DealProcessor<string>();
    log, outcome := processor.Watch(arrivals, Config(0.05, 1000, 20));
    VolumeToBalanceRatioScenario(T, p1, p2, p3);
  }

  /** The second scenario run on a fresh processor: only order 2 warns. */
  method TestOpenDeltaTime(T: int, p1: int, p2: int, p3: int)
    returns (log: seq<Warning<string>>, outcome: Outcome)
    requires p2 <= T + 980
    ensures outcome == Completed && log == [Warning(2, Server)]
  {
    var arrivals := [Uncancelled(TestDeal(1, T - 19, 1.0), p1),
                     Uncancelled(TestDeal(2, T - 18, 1.04), p2),
                     Uncancelled(TestDeal(3, T, 0.96), p3)];
    CancelPointIsFirstCancel(arrivals, 3);
    assert arrivals[..3] == arrivals;
    var processor := new DealProcessor<string>();
    log, outcome := processor.Watch(arrivals, Config(0.05, 1000, 2));
    OpenTimeDeltaScenario(T, p1, p2, p3);
  }

  /** The third scenario run on a fresh processor: nothing is logged. */
  method TestExpiredHit(T: int, p1: int, p2: int)
    returns (log: seq<Warning<string>>, outcome: Outcome)
    ensures outcome == Completed && log == []
  {
    var arrivals := [Uncancelled(TestDeal(1, T - 29, 1.0), p1),
                     Uncancelled(TestDeal(2, T - 1, 1.0), p2)];
    CancelPointIsFirstCancel(arrivals, 2);
    assert arrivals[..2] == arrivals;
    var processor := new DealProcessor<string>();
    log, outcome := processor.Watch(arrivals, Config(0.05, 10, 20));
    ExpiredHitScenario(T, p1, p2);
  }
}
