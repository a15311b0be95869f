/**
 Fare and journey-time estimates from a route's length (in kilometres) and
 its number of stations. Both are real-valued; the rounding to two decimals
 the store applies on return is not modelled.
 */
module Fares {

  /** Base fare in pounds. */
  const BaseFare: real := 5.0
  /** Pounds per kilometre. */
  const RatePerKm: real := 0.15
  /** Average speed in km/h. */
  const AverageSpeed: real := 80.0
  /** Hours spent at each stop (three minutes). */
  const StopTime: real := 0.05

  /** The base fare plus a fixed rate per kilometre. */
  function Price(distance: real): (r: real)
    ensures distance >= 0.0 ==> r >= BaseFare
    ensures r - BaseFare == distance * RatePerKm
  {
    BaseFare + distance * RatePerKm
  }

  /** A 200 km journey costs 35 pounds. */
  lemma PriceOf200Km()
    ensures Price(200.0) == 35.0
  {
  }

  /** A longer journey never costs less. */
  lemma PriceMonotone(a: real, b: real)
    requires a <= b
    ensures Price(a) <= Price(b)
  {
  }

  /**
   Travel time at the average speed, plus a stop time for each station after
   the first when the route has more than one.
   */
  function Time(distance: real, stations: int): (r: real)
    ensures stations <= 1 ==> r * AverageSpeed == distance
    ensures stations > 1 ==> r == distance / AverageSpeed + (stations - 1) as real * StopTime
    ensures distance >= 0.0 ==> r >= 0.0
  {
    var travel := distance / AverageSpeed;
    var stopping := if stations > 1 then (stations - 1) as real * StopTime else 0.0;
    travel + stopping
  }

  /** 200 km through 5 stations takes 2.7 hours: 2.5 travelling and 0.2 at four stops. */
  lemma TimeOf200KmFiveStations()
    ensures Time(200.0, 5) == 2.7
  {
  }

  /** More stations on the same distance never take less time. */
  lemma TimeMonotone(distance: real, m: int, n: int)
    requires m <= n
    ensures Time(distance, m) <= Time(distance, n)
  {
  }
}
