/**
 * Kotlin's fixed-width integers. A cell of the board is a Kotlin `Int`
 * (32-bit, two's complement) and a timestamp is a `Long` (64-bit); both
 * wrap around on overflow, which `Wrap32` and `Wrap64` make explicit.
 */
module Ints {

  const Two31: int := 0x8000_0000
  const Two32: int := 0x1_0000_0000
  const Two63: int := 0x8000_0000_0000_0000
  const Two64: int := 0x1_0000_0000_0000_0000

  newtype int32 = x: int | -0x8000_0000 <= x < 0x8000_0000
  newtype int64 = x: int | -0x8000_0000_0000_0000 <= x < 0x8000_0000_0000_0000

  /** The 32-bit value an `Int` computation yields when the exact result is `x`. */
  function Wrap32(x: int): (r: int32)
    ensures -Two31 <= x < Two31 ==> r as int == x
  {
    if -Two31 <= x < Two31 then x as int32 else ((x + Two31) % Two32 - Two31) as int32
  }

  /** `Wrap32` changes its argument by a multiple of 2^32. */
  lemma {:induction false} Wrap32Mod(x: int)
    ensures (x - Wrap32(x) as int) % Two32 == 0
  {
    if !(-Two31 <= x < Two31) {
      var m := (x + Two31) % Two32;
      var d := (x + Two31) / Two32;
      assert x + Two31 == Two32 * d + m;
      assert x - Wrap32(x) as int == Two32 * d;
    }
  }

  /** The 64-bit value a `Long` computation yields when the exact result is `x`. */
  function Wrap64(x: int): (r: int64)
    ensures -Two63 <= x < Two63 ==> r as int == x
  {
    if -Two63 <= x < Two63 then x as int64 else ((x + Two63) % Two64 - Two63) as int64
  }

  /** Two integers that differ by a multiple of 2^32 wrap to the same `Int`. */
  lemma {:induction false} Wrap32Congruent(x: int, y: int)
    requires (x - y) % Two32 == 0
    ensures Wrap32(x) == Wrap32(y)
  {
    var q := (x - y) / Two32;
    assert x - y == Two32 * q;
    assert x + Two31 == (y + Two31) + Two32 * q;
    ModShift(y + Two31, q);
  }

  lemma {:induction false} ModShift(a: int, q: int)
    ensures (a + Two32 * q) % Two32 == a % Two32
  {
    var m := a % Two32;
    var d := a / Two32;
    assert a == Two32 * d + m;
    assert a + Two32 * q == Two32 * (d + q) + m;
    assert 0 <= m < Two32;
  }

  /**
   * Wrapping after every addition, as a Kotlin `Int` accumulator does,
   * gives the same value as wrapping once at the end.
   */
  lemma {:induction false} Wrap32Add(x: int, y: int)
    ensures Wrap32(Wrap32(x) as int + y) == Wrap32(x + y)
  {
    var w := Wrap32(x) as int;
    Wrap32Mod(x);
    assert (x - w) % Two32 == 0;
    assert ((x + y) - (w + y)) == x - w;
    Wrap32Congruent(w + y, x + y);
  }
}
