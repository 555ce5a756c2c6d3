/** Unsigned counters of a fixed width, which wrap around. */
module Counters {
  const COUNTER_LIMIT := 0x1_0000               // use counters have 16 bits
  const WORD := 0x1_0000_0000_0000_0000         // sizes and unsigned sums have 64

  type Count = n: nat | n < COUNTER_LIMIT

  function Increased(n: nat): Count {
    (n + 1) % COUNTER_LIMIT
  }
}
