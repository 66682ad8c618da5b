/**
 * Java's fixed-width integer arithmetic on unbounded integers: the
 * two's-complement wrap-around of an int and the narrowing (short) cast.
 */
module JavaInts {
  const TwoTo31: int := 0x8000_0000
  const TwoTo15: int := 0x8000

  /** The int value Java stores for the mathematical result n. */
  function Wrap32(n: int): (r: int)
    ensures -TwoTo31 <= r < TwoTo31
    ensures (r - n) % (2 * TwoTo31) == 0
    ensures -TwoTo31 <= n < TwoTo31 ==> r == n
  {
    (n + TwoTo31) % (2 * TwoTo31) - TwoTo31
  }

  predicate IsShort(n: int) { -TwoTo15 <= n < TwoTo15 }

  /** (short) n: keeps the low sixteen bits, read as a signed number. */
  function ToShort(n: int): (r: int)
    ensures IsShort(r)
    ensures (r - n) % (2 * TwoTo15) == 0
    ensures IsShort(n) ==> r == n
  {
    (n + TwoTo15) % (2 * TwoTo15) - TwoTo15
  }
}
