/** h03 SommaArray.somma: the sum of an int array, by a running total. */
module SommaArray {

  /** The sum of the values, element by element from the front. */
  function Sum(s: seq<int>): int {
    if s == [] then 0 else s[0] + Sum(s[1..])
  }

  /** Adding one more value at the end adds it to the sum. */
  lemma {:induction false} SumSnoc(s: seq<int>, v: int)
    ensures Sum(s + [v]) == Sum(s) + v
  {
    if s != [] {
      assert (s + [v])[1..] == s[1..] + [v];
      SumSnoc(s[1..], v);
    }
  }

  /** somma: the loop total is the sum of the prefix seen so far; the array is not changed. */
  method Somma(values: array<int>) returns (total: int)
    ensures total == Sum(values[..])
  {
    total := 0;
    for i := 0 to values.Length
      invariant total == Sum(values[..i])
    {
      assert values[..i + 1] == values[..i] + [values[i]];
      SumSnoc(values[..i], values[i]);
      total := total + values[i];
    }
    assert values[..values.Length] == values[..];
  }
}
