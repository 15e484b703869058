/** Fixed-width integers of the firmware and the C++ conversions between them.
    Dafny integers are unbounded, so every wrap-around, reinterpretation and
    truncation the firmware relies on is written out here. */
module Timestamps {

  const TWO_8: int := 0x100
  const TWO_31: int := 0x8000_0000
  const TWO_32: int := 0x1_0000_0000

  /** uint8_t */
  type u8 = x: int | 0 <= x < 0x100
  /** uint32_t, and the firmware's timestamp_t and serial_t */
  type u32 = x: int | 0 <= x < 0x1_0000_0000
  /** a 32-bit two's complement int */
  type i32 = x: int | -0x8000_0000 <= x < 0x8000_0000

  /** Conversion of any integer to uint32_t: reduction modulo 2^32. */
  function Wrap32(x: int): (r: u32)
    ensures (x - r) % TWO_32 == 0
    ensures 0 <= x < TWO_32 ==> r == x
  {
    x % TWO_32
  }

  /** Conversion of any integer to uint8_t (what storing `v >> k` into a byte does). */
  function Byte(x: int): (r: u8)
    ensures (x - r) % TWO_8 == 0
    ensures 0 <= x < TWO_8 ==> r == x
  {
    x % TWO_8
  }

  /** `a + b` where the result is stored in a uint32_t. */
  function Add32(a: u32, b: int): (r: u32)
    ensures (a + b - r) % TWO_32 == 0
  {
    Wrap32(a + b)
  }

  /** `a - b` on two uint32_t values: the difference modulo 2^32, which is the
      amount that, added to b, gives a back. */
  function Sub32(a: u32, b: u32): (r: u32)
    ensures Add32(b, r) == a
    ensures b <= a ==> r == a - b
    ensures a < b ==> r == a - b + TWO_32
  {
    if b <= a then a - b else a - b + TWO_32
  }

  /** `(int) x` for a uint32_t x: the same 32 bits read as two's complement. */
  function AsSigned(x: u32): (r: i32)
    ensures Wrap32(r) == x
    ensures r < 0 <==> x >= TWO_31
  {
    if x < TWO_31 then x else x - TWO_32
  }

  /** An int result that overflows 32 bits wraps around, as on the target. */
  function WrapI32(x: int): (r: i32)
    ensures Wrap32(r) == Wrap32(x)
    ensures -TWO_31 <= x < TWO_31 ==> r == x
  {
    AsSigned(Wrap32(x))
  }

  /** `a / 2` in C and C++: the quotient is truncated toward zero, so the
      remainder takes the sign of a and -(a / 2) == (-a) / 2. */
  function Half(a: int): (q: int)
    ensures a - 2 * q in {-1, 0, 1}
    ensures a >= 0 ==> 0 <= 2 * q <= a
    ensures a < 0 ==> a <= 2 * q <= 0
  {
    if a >= 0 then a / 2 else -((-a) / 2)
  }

  lemma {:induction false} AsSignedOfWrap(x: int)
    requires -TWO_31 <= x < TWO_31
    ensures AsSigned(Wrap32(x)) == x
  {
    if x < 0 {
      assert Wrap32(x) == x + TWO_32;
    }
  }

  /** Two uint32_t additions in a row land where one addition of the sum
      lands. */
  lemma {:induction false} Add32Add(a: u32, b: int, c: int)
    ensures Add32(Add32(a, b), c) == Add32(a, b + c)
  {
    var ab := Add32(a, b);
    var k := (ab - (a + b)) / TWO_32;
    assert ab + c == (a + (b + c)) + k * TWO_32;
    assert Wrap32(ab + c) == Wrap32(a + (b + c));
  }

  /** If a lies x past b modulo 2^32, for an x inside the int range, then the
      uint32_t difference a - b read back as an int is x itself. */
  lemma {:induction false} SignedDifference(a: u32, b: u32, x: int)
    requires -TWO_31 <= x < TWO_31
    requires (a - b - x) % TWO_32 == 0
    ensures AsSigned(Sub32(a, b)) == x
  {
    var r := Sub32(a, b);
    assert (b + r - a) % TWO_32 == 0;
    assert (r - x) % TWO_32 == 0 by {
      assert r - x == (b + r - a) + (a - b - x);
    }
    assert r == Wrap32(x);
    AsSignedOfWrap(x);
  }

  /** Wrapping an intermediate int result does not change the final wrapped
      sum: a chain of int additions that each wrap lands where the exact sum
      wraps. */
  lemma {:induction false} WrapI32Add(x: int, y: int)
    ensures WrapI32(WrapI32(x) + y) == WrapI32(x + y)
  {
    var a := WrapI32(x);
    assert (a - x) % TWO_32 == 0 by {
      assert (x - Wrap32(x)) % TWO_32 == 0;
      assert (a - Wrap32(a)) % TWO_32 == 0;
      assert Wrap32(a) == Wrap32(x);
    }
    var k := (a - x) / TWO_32;
    assert a + y == (x + y) + k * TWO_32;
    assert Wrap32(a + y) == Wrap32(x + y);
  }
}
