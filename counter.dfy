/** The uint32 counter primitive and the wrap-around arithmetic that the bus's
    atomic worker counts share with it. */
module Counters {

  const Modulus: nat := 0x1_0000_0000

  /** Go's uint32. */
  type Uint32 = x: int | 0 <= x < Modulus

  /** How many times a loop `for i := 0; i < n; i++` runs. */
  function Max0(n: int): nat
  {
    if n < 0 then 0 else n
  }

  /** Adding 1 to a uint32: wraps from the largest value to 0. */
  function WrappingIncrement(v: Uint32): (r: Uint32)
    ensures v < Modulus - 1 ==> r == v + 1
    ensures v == Modulus - 1 ==> r == 0
  {
    (v + 1) % Modulus
  }

  /** Adding ^uint32(0), the all-ones uint32, which wraps to subtracting 1:
      decrementing 0 gives the largest uint32. */
  function WrappingDecrement(v: Uint32): (r: Uint32)
    ensures v > 0 ==> r == v - 1
    ensures v == 0 ==> r == Modulus - 1
  {
    (v + (Modulus - 1)) % Modulus
  }

  /** An increment followed by a decrement restores the value, and the other way round. */
  lemma IncrementDecrementCancel(v: Uint32)
    ensures WrappingDecrement(WrappingIncrement(v)) == v
    ensures WrappingIncrement(WrappingDecrement(v)) == v
  {
  }

  /** Incrementing n times adds n modulo 2^32. */
  lemma IncrementAfterAdding(v: Uint32, n: nat)
    ensures WrappingIncrement((v + n) % Modulus) == (v + n + 1) % Modulus
  {
  }

  class Counter {
    var value: Uint32

    /** newCounter: a fresh counter holds 0. */
    constructor ()
      ensures value == 0
    {
      value := 0;
    }

    method Increment()
      modifies this
      ensures value == WrappingIncrement(old(value))
    {
      value := WrappingIncrement(value);
    }

    method Decrement()
      modifies this
      ensures value == WrappingDecrement(old(value))
    {
      value := WrappingDecrement(value);
    }

    /** Whether the counter currently holds v; reading it changes nothing. */
    method Is(v: Uint32) returns (r: bool)
      ensures r <==> value == v
    {
      r := value == v;
    }
  }

  /** Increment then Decrement on a counter leaves it as it was. */
  method IncrementThenDecrement(c: Counter)
    modifies c
    ensures c.value == old(c.value)
  {
    c.Increment();
    c.Decrement();
    IncrementDecrementCancel(old(c.value));
  }
}
