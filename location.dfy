/**
 * Source locations: a (line, column) pair of 16-bit values packed into one
 * 32-bit word, column in the high half and line in the low half.
 */
module Location {

  type Location = bv32

  /** l_create: column shifted into the high 16 bits, line in the low 16 bits. */
  function Create(line: bv16, column: bv16): (l: Location)
    ensures Line(l) == line && Column(l) == column
  {
    (column as bv32 << 16) | (line as bv32)
  }

  /** l_line: the low 16 bits. */
  function Line(l: Location): bv16
  {
    (0xFFFF & l) as bv16
  }

  /** l_column: the high 16 bits. */
  function Column(l: Location): bv16
  {
    (l >> 16) as bv16
  }

  /** Every 32-bit word is the packing of its own line and column. */
  lemma CreateOfParts(l: Location)
    ensures Create(Line(l), Column(l)) == l
  {
  }

  /** Packing is injective: different pairs give different words. */
  lemma CreateInjective(line1: bv16, column1: bv16, line2: bv16, column2: bv16)
    requires Create(line1, column1) == Create(line2, column2)
    ensures line1 == line2 && column1 == column2
  {
    assert Line(Create(line1, column1)) == line1;
    assert Column(Create(line1, column1)) == column1;
  }

  /** The three pairs test_Location (src/llgc.c:17-27) packs and unpacks. */
  lemma SelfTestPairs()
    ensures Line(Create(0, 0)) == 0 && Column(Create(0, 0)) == 0
    ensures Line(Create(1, 1)) == 1 && Column(Create(1, 1)) == 1
    ensures Line(Create(1236, 11231)) == 1236 && Column(Create(1236, 11231)) == 11231
  {
  }
}
