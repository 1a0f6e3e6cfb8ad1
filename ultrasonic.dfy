/**
 * The presence test of one ultrasonic range sensor (hardware/ultrasonic.py).
 * The echo-timing measurement itself is hardware I/O: its outcome enters as
 * an optional distance in centimetres, `None` standing for a failed reading.
 */
module Ultrasonic {
  import opened Wrappers

  /** Default range of `check_presence`, in centimetres. */
  const DefaultMinDistance: real := 30.0
  const DefaultMaxDistance: real := 100.0

  /** A subject is present when the reading lies in the closed range [minDistance, maxDistance]. */
  predicate InRange(d: real, minDistance: real, maxDistance: real) {
    minDistance <= d <= maxDistance
  }

  /** `check_presence`: a failed reading never signals presence. */
  function CheckPresence(distance: Option<real>,
                         minDistance: real := DefaultMinDistance,
                         maxDistance: real := DefaultMaxDistance): (present: bool)
    ensures distance.None? ==> !present
    ensures present <==> distance.Some? && InRange(distance.value, minDistance, maxDistance)
  {
    match distance
    case None => false
    case Some(d) => minDistance <= d && d <= maxDistance
  }

  /** Both ends of the range are inclusive. */
  lemma BoundsInclusive(minDistance: real, maxDistance: real)
    requires minDistance <= maxDistance
    ensures CheckPresence(Some(minDistance), minDistance, maxDistance)
    ensures CheckPresence(Some(maxDistance), minDistance, maxDistance)
  {
  }

  /** An empty range (min > max) never reports presence, whatever the reading. */
  lemma EmptyRangeNeverPresent(distance: Option<real>, minDistance: real, maxDistance: real)
    requires minDistance > maxDistance
    ensures !CheckPresence(distance, minDistance, maxDistance)
  {
  }

  /** Widening the range never turns a presence into an absence. */
  lemma WideningKeepsPresence(distance: Option<real>, lo: real, hi: real, lo': real, hi': real)
    requires lo' <= lo && hi <= hi'
    requires CheckPresence(distance, lo, hi)
    ensures CheckPresence(distance, lo', hi')
  {
  }

  /** The default range is [30, 100]: 30 and 100 are in, anything outside is out. */
  lemma DefaultRange(d: real)
    ensures CheckPresence(Some(d)) <==> 30.0 <= d <= 100.0
  {
  }
}
