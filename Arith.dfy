/** The integer helpers shared by the order book and the ring buffer. */
module Arith {
  function Min(a: int, b: int): int { if a <= b then a else b }
  function Max(a: int, b: int): int { if a <= b then b else a }
}
