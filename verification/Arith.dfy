/** The facts about products that several modules need by name. */
module Arith {

  lemma Grows(a: int, b: int, k: nat)
    requires a <= b
    ensures a * k <= b * k
  {
  }

  lemma MulLe(a: real, b: real, c: real)
    requires a <= b && c >= 0.0
    ensures a * c <= b * c
  {
  }

  lemma MulLt(a: real, b: real, c: real)
    requires a < b && c > 0.0
    ensures a * c < b * c
  {
  }

  lemma Products(a: int, b: int)
    ensures (a * b) as real == a as real * b as real
  {
  }
}
