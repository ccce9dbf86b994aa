/** Facts about products of natural numbers that the index layouts rely on. */
module Arith {

  /** Rows of c entries: row a < b ends no later than row b begins. */
  lemma MulStep(a: int, b: int, c: int)
    ensures 0 <= a && 0 <= c && a < b ==> a * c + c <= b * c
  {
    if 0 <= a && 0 <= c && a < b {
      var d := b - a - 1;
      assert b * c == a * c + c + d * c;
    }
  }
}
