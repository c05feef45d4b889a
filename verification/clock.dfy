/**
 * The Arduino millisecond counter: an unsigned 32-bit value, so elapsed time
 * `millis() - since` is computed modulo 2^32 and survives the counter
 * wrapping around after about 49.7 days.
 */
module Clock {

  const WRAP: nat := 0x1_0000_0000

  /** A `millis()` reading or a stored timestamp (`unsigned long`). */
  type Millis = t: nat | t < 0x1_0000_0000

  /** `now - since` in unsigned 32-bit arithmetic. */
  function Elapsed(now: Millis, since: Millis): (d: nat)
    ensures d < WRAP
    ensures since <= now ==> d == now - since
    ensures now < since ==> d == WRAP - since + now
  {
    (now - since) % WRAP
  }
}
