/** The 32-bit `int` that row counts pass through on their way between 64-bit values. */
module Int32 {

  const INT32_MAX: int := 0x7FFF_FFFF

  /** Conversion of a 64-bit value to a 32-bit `int`. */
  function ToInt32(x: int): int {
    (x + 0x8000_0000) % 0x1_0000_0000 - 0x8000_0000
  }

  const UINT32_MAX: int := 0xFFFF_FFFF

  /** Conversion of a count to a 32-bit `unsigned int`. */
  function ToUint32(x: nat): nat {
    x % 0x1_0000_0000
  }

  /** Whether a result of `int` arithmetic is defined. */
  predicate IsInt32(x: int) {
    -0x8000_0000 <= x <= INT32_MAX
  }

  lemma ToInt32Range(x: int)
    ensures IsInt32(ToInt32(x))
    ensures ToInt32(x) == x <==> IsInt32(x)
    ensures (x - ToInt32(x)) % 0x1_0000_0000 == 0
    ensures x > INT32_MAX ==> ToInt32(x) < x
  {
  }

  /** Narrowing a part of a sum first does not change what the sum narrows to. */
  lemma ToInt32Add(x: int, y: int)
    ensures ToInt32(ToInt32(x) + y) == ToInt32(x + y)
  {
    var m := 0x1_0000_0000;
    var q := (x + 0x8000_0000) / m;
    assert ToInt32(x) == x - q * m;
    assert (x - q * m + y + 0x8000_0000) % m == (x + y + 0x8000_0000) % m;
  }

  lemma ToInt32Subtract(x: int, y: int)
    ensures ToInt32(x - ToInt32(y)) == ToInt32(x - y)
  {
    var m := 0x1_0000_0000;
    var q := (y + 0x8000_0000) / m;
    assert ToInt32(y) == y - q * m;
    assert (x - (y - q * m) + 0x8000_0000) % m == (x - y + 0x8000_0000) % m;
  }
}
