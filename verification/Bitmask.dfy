/** The 32-bit match masks: bit `j` stands for word `j` of the list. */
module Bitmask {

  const MAPSTRINGSSIZE := 5

  datatype Mask = Mask(bits: bv32) {

    /** `m |= m'` */
    function Or(m: Mask): Mask {
      Mask(bits | m.bits)
    }
  }

  const NONE := Mask(0)

  /** `1 << j` */
  function Flag(j: nat): Mask
    requires j < MAPSTRINGSSIZE
  {
    Mask((1 as bv32) << j)
  }

  predicate Has(m: Mask, j: nat)
    requires j < MAPSTRINGSSIZE
  {
    m.bits & Flag(j).bits != 0
  }

  /** Only the bits of the five words are in use. */
  predicate Small(m: Mask) {
    m.bits < 32
  }

  lemma HasOr(a: Mask, b: Mask, j: nat)
    requires j < MAPSTRINGSSIZE
    ensures Has(a.Or(b), j) <==> Has(a, j) || Has(b, j)
  {
    var f := Flag(j).bits;
    assert (a.bits | b.bits) & f == (a.bits & f) | (b.bits & f);
  }

  lemma SmallOr(a: Mask, b: Mask)
    requires Small(a) && Small(b)
    ensures Small(a.Or(b))
  {
    var x, y := a.bits, b.bits;
    assert x < 32 && y < 32 ==> x | y < 32;
  }

  lemma FlagValues()
    ensures Flag(0).bits == 1 && Flag(1).bits == 2 && Flag(2).bits == 4 && Flag(3).bits == 8 && Flag(4).bits == 16
  {
  }

  lemma HasFlag(i: nat, j: nat)
    requires i < MAPSTRINGSSIZE && j < MAPSTRINGSSIZE
    ensures Has(Flag(i), j) <==> i == j
    ensures Small(Flag(i))
  {
    FlagValues();
  }

  lemma HasNone(j: nat)
    requires j < MAPSTRINGSSIZE
    ensures !Has(NONE, j)
  {
  }

  /** A mask is non-zero exactly when some word's bit is set. */
  lemma NonZeroHas(m: Mask)
    requires Small(m)
    ensures m != NONE <==> exists j: nat :: j < MAPSTRINGSSIZE && Has(m, j)
  {
    FlagValues();
    var x := m.bits;
    if x != 0 {
      assert x & 1 != 0 || x & 2 != 0 || x & 4 != 0 || x & 8 != 0 || x & 16 != 0;
      assert Has(m, 0) || Has(m, 1) || Has(m, 2) || Has(m, 3) || Has(m, 4);
    }
  }
}
