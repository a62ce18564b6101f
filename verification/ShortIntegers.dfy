/**
 The short integers of the C programs: two's complement with 16 bits.
 */
module ShortIntegers {

  const SHORTMAX := 32767

  /** The value a short holds after `n` is assigned to it. */
  function Short(n: int): (r: int)
    ensures -SHORTMAX - 1 <= r <= SHORTMAX && (r - n) % 65536 == 0
    ensures -SHORTMAX - 1 <= n <= SHORTMAX ==> r == n
  {
    (n + 32768) % 65536 - 32768
  }
}
