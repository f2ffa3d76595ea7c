/** The C `int` of the supported targets: 32 bits, two's complement, wrapping. */
module Int32s {

  const MODULUS: int := 0x1_0000_0000
  const HALF: int := 0x8000_0000

  type Int32 = x: int | -0x8000_0000 <= x < 0x8000_0000

  // The value that makes a reference count sticky.
  const SENTINEL: Int32 := -1

  /** The conversion of any integer to 32 bits: multiples of 2^32 are dropped. */
  function Wrap(x: int): Int32
    decreases if -HALF <= x < HALF then 0 else if x < 0 then -x else x
  {
    if x >= HALF then Wrap(x - MODULUS)
    else if x < -HALF then Wrap(x + MODULUS)
    else x
  }

  lemma {:induction false} WrapDropsMultiples(x: int) returns (k: int)
    ensures Wrap(x) == x + k * MODULUS
    decreases if -HALF <= x < HALF then 0 else if x < 0 then -x else x
  {
    if x >= HALF {
      k := WrapDropsMultiples(x - MODULUS);
      k := k - 1;
    } else if x < -HALF {
      k := WrapDropsMultiples(x + MODULUS);
      k := k + 1;
    } else {
      k := 0;
    }
  }

  /** Adding or subtracting one, modulo 2^32. */
  function Succ(x: Int32): Int32 {
    if x == HALF - 1 then -HALF else x + 1
  }

  function Pred(x: Int32): Int32 {
    if x == -HALF then HALF - 1 else x - 1
  }

  lemma StepsWrap(x: Int32)
    ensures Succ(x) == Wrap(x + 1) && Pred(x) == Wrap(x - 1)
    ensures Pred(Succ(x)) == x == Succ(Pred(x))
  {
  }

  /** The same 32 bits, read as an unsigned number. */
  function Unsigned(x: Int32): nat {
    if x < 0 then x + MODULUS else x
  }
}
