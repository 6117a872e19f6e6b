/** The little arithmetic that several parts share. */
module Arithmetic {

  function Min(a: nat, b: nat): nat {
    if a < b then a else b
  }

  lemma DivMod(a: nat, b: nat)
    requires b > 0
    ensures a / b * b + a % b == a
  {
  }
}
