/**
 The two integer-width boundaries of the Python-to-Java direction: the 2G
 check on byte payload sizes, and reading a Python int as a Java `long`.
 */
module Numbers {
  import opened Values
  import opened Outcomes

  /** Java's `(int)` cast of a `long`: keep the low 32 bits, two's complement. */
  function NarrowToInt(x: int64): (r: int32)
    ensures (r as int - x as int) % 0x1_0000_0000 == 0
    ensures -0x8000_0000 <= x as int <= INT_MAX ==> r as int == x as int
  {
    (((x as int + 0x8000_0000) % 0x1_0000_0000) - 0x8000_0000) as int32
  }

  /** `lengthToInt`: a size above `Integer.MAX_VALUE` is refused, anything else is cast. */
  function LengthToInt(length: int64): (r: Result<int32>)
    ensures r.Ok? <==> length as int <= INT_MAX
    ensures r.Ok? && 0 <= length ==> r.value as int == length as int
    ensures r.Err? ==> r.failure == TooLong(length as int)
  {
    if length as int > INT_MAX then Err(TooLong(length as int))
    else Ok(NarrowToInt(length))
  }

  /**
   `PyLong_AsLong(obj)` as the source uses it: for an int outside the `long`
   range CPython returns -1 and sets an exception, which the caller never
   inspects, so -1 is what reaches Java.
   */
  function AsLongAsWritten(n: int): (r: int64)
    ensures InInt64(n) ==> r as int == n
    ensures !InInt64(n) ==> r == -1
  {
    if InInt64(n) then n as int64 else -1
  }

  /** Reading a Python int as a Java `long`, refusing what does not fit. */
  function AsLong(n: int): (r: Result<int64>)
    ensures r.Ok? <==> InInt64(n)
    ensures r.Ok? ==> r.value as int == n
    ensures r.Err? ==> r.failure == IntOverflow(n)
  {
    if InInt64(n) then Ok(n as int64) else Err(IntOverflow(n))
  }

  /** Where the Python int fits, the unchecked read and the checked one agree. */
  lemma AsLongAgreesInRange(n: int)
    requires AsLong(n).Ok?
    ensures AsLongAsWritten(n) == AsLong(n).value
  {
  }

  /** Every Python int outside the `long` range reaches Java as a different number. */
  lemma AsLongAsWrittenLosesOverflow(n: int)
    requires !InInt64(n)
    ensures AsLongAsWritten(n) as int != n
    ensures AsLong(n) == Err(IntOverflow(n))
  {
  }

  /** The concrete case: Python's `2**63` is read back as `-1L`. */
  lemma TwoToTheSixtyThreeReadsAsMinusOne()
    ensures AsLongAsWritten(0x8000_0000_0000_0000) == -1
    ensures AsLong(0x8000_0000_0000_0000).Err?
  {
  }
}
