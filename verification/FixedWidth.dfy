/** The 32-bit integers of the C code. */
module FixedWidth {

  const TWO_32 := 0x1_0000_0000
  const INT_MAX := 0x7FFF_FFFF
  const INT_MIN := -0x8000_0000

  predicate In32(x: int) {
    INT_MIN <= x <= INT_MAX
  }

  const TWO_63 := 0x8000_0000_0000_0000

  predicate In64(x: int) {
    -TWO_63 <= x < TWO_63
  }

  /** Conversion to a 32-bit unsigned. */
  function Unsigned(x: int): (r: nat)
    ensures 0 <= r < TWO_32 && (x - r) % TWO_32 == 0
    ensures 0 <= x < TWO_32 ==> r == x
  {
    x % TWO_32
  }

  /** Conversion to a 32-bit signed: the low 32 bits. */
  function Signed32(x: int): (r: int)
    ensures In32(r) && (x - r) % TWO_32 == 0
    ensures r == x <==> In32(x)
  {
    var low := x % TWO_32;
    if low <= INT_MAX then low else low - TWO_32
  }
}
