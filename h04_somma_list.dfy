/** h04 SommaList.somma: the sum of a list of boxed ints, by a running total. */
module SommaList {
  import opened SommaArray

  /** somma: the loop total is the sum of the prefix seen so far; the list is a value and does not change. */
  method Somma(values: seq<int>) returns (total: int)
    ensures total == Sum(values)
  {
    total := 0;
    for i := 0 to |values|
      invariant total == Sum(values[..i])
    {
      assert values[..i + 1] == values[..i] + [values[i]];
      SumSnoc(values[..i], values[i]);
      total := total + values[i];
    }
    assert values[..|values|] == values;
  }
}
