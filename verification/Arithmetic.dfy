/** Multiplication, where the solver needs to be told. */
module Arithmetic {
  lemma Distribute(x: int, y: int, r: int)
    ensures (x + y) * r == x * r + y * r
  {
  }

  lemma ScaleUp(x: int, y: int, r: int)
    requires x <= y && r >= 0
    ensures x * r <= y * r
  {
  }
}
