/**
 * The records the deal processor works on: a normalized deal, the three
 * tolerances of the monitor configuration, and the warning it reports.
 */
module Deals {

  /** The MT5 deal action. Only buys and sells are routed to a processor;
      other action codes are carried along unchanged. */
  datatype DealAction = Buy | Sell | OtherAction(code: int)

  /** One executed deal. `S` is the type of the originating server's identifier.
      Login and Order are unsigned in the source and are never computed with. */
  datatype Deal<S> = Deal(
    login: nat,
    symbol: string,
    action: DealAction,
    order: nat,
    openTime: int,             // seconds since the Unix epoch
    volumeToBalanceRate: real, // exact stand-in for the decimal ratio
    serverId: S)

  /** The monitor configuration, with both time spans in whole seconds:
      the ratio tolerance, the cache retention and the open-time tolerance.
      The processor does not validate any of them. */
  datatype Config = Config(
    volumeToBalanceTolerance: real,
    cacheThresholdSeconds: int,
    openTimeDeltaSeconds: int)

  /** What one "Similar order found" warning names: the incoming deal's order
      and server. */
  datatype Warning<S> = Warning(order: nat, serverId: S)

  function Distance(a: int, b: int): (d: nat)
  {
    if a >= b then a - b else b - a
  }

  function RatioDistance(a: real, b: real): (d: real)
  {
    if a >= b then a - b else b - a
  }
}
