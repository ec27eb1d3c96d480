/** Small facts of integers that several modules use. */
module Numbers {
  function Min(a: nat, b: nat): (r: nat) { if a < b then a else b }

  function Max(a: nat, b: nat): (r: nat) { if a < b then b else a }

  function Abs(a: int): (r: nat) { if a < 0 then -a else a }

  /** x lies between a and b, whichever is the smaller. */
  predicate Between(a: int, x: int, b: int) { a <= x <= b || b <= x <= a }
}
