/** Division by a variable, under names, so that proofs can do without the
    solver's nonlinear arithmetic. */
module Nonlinear {

  function Div(n: nat, d: nat): nat
    requires d > 0
  {
    n / d
  }

  function Mod(n: nat, d: nat): nat
    requires d > 0
  {
    n % d
  }

  lemma MulMono(a: nat, b: nat, c: nat)
    requires a <= b
    ensures a * c <= b * c
  {
  }
}
