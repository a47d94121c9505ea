/** Facts about products that the counting arguments share. */
module Arithmetic {

  lemma MulMonotone(a: nat, b: nat, c: nat)
    requires a <= b
    ensures a * c <= b * c
  {
    assert b * c == a * c + (b - a) * c;
  }

  lemma LessByFactor(a: int, b: int, c: nat)
    requires a * c < b * c
    ensures a < b
  {
  }
}
