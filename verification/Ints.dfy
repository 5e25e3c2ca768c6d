/** Small integer helpers. */
module Ints {

  type Byte = b: int | 0 <= b < 256

  function Max(a: int, b: int): int { if a < b then b else a }

  function Min(a: int, b: int): int { if a < b then a else b }
}
