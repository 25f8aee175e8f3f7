/**
 * The object tags. A list cell keeps a child pointer in the slot where an atom
 * keeps its tag; pointers are even and every atom tag is odd, so one parity
 * test tells the two apart.
 */
module Tags {

  datatype DataType =
    | List | Nil | Symbol | LongSymbol | String | LongString
    | Bool | Int | Float | CData | CFunc

  /** The numeric value of each enumerator. */
  function Code(dt: DataType): nat
  {
    match dt
    case List => 0
    case Nil => 1
    case Symbol => 3
    case LongSymbol => 5
    case String => 7
    case LongString => 9
    case Bool => 11
    case Int => 13
    case Float => 15
    case CData => 17
    case CFunc => 19
  }

  predicate IsOdd(n: int)
  {
    n % 2 == 1
  }

  /** The parity split: the list tag is 0 and every other tag is odd. */
  lemma ParityEncoding(dt: DataType)
    ensures dt == List <==> Code(dt) == 0
    ensures dt != List <==> IsOdd(Code(dt))
  {
  }

  /** Distinct tags have distinct codes, so a code read back names one tag. */
  lemma CodeInjective(a: DataType, b: DataType)
    requires Code(a) == Code(b)
    ensures a == b
  {
  }

  /**
   * ll_type's last step: the two out-of-line text variants are reported as
   * their logical type; every other tag is reported unchanged.
   */
  function Normalize(dt: DataType): (r: DataType)
    ensures r != LongSymbol && r != LongString
    ensures dt != LongSymbol && dt != LongString ==> r == dt
    ensures dt == LongSymbol ==> r == Symbol
    ensures dt == LongString ==> r == String
  {
    if dt == LongSymbol then Symbol
    else if dt == LongString then String
    else dt
  }

  /** Normalising keeps the list/atom split and is idempotent. */
  lemma NormalizeKeepsParity(dt: DataType)
    ensures IsOdd(Code(Normalize(dt))) == IsOdd(Code(dt))
    ensures Normalize(Normalize(dt)) == Normalize(dt)
  {
  }
}
