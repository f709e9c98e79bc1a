/**
 * e06 ArrayUtils: the same binarySearch as s06 (ArrayUtils.BinarySearch),
 * and insertAt and fill left as empty bodies, which change nothing.
 */
module ArrayUtilsStubs {

  /** insertAt as written in e06: an empty body, so the array is unchanged. */
  method InsertAt(a: array<int>, ip: int, value: int)
    ensures a[..] == old(a[..])
  {
  }

  /** fill as written in e06: an empty body, so the array is unchanged. */
  method Fill(a: array<int>, value: int)
    ensures a[..] == old(a[..])
  {
  }
}
