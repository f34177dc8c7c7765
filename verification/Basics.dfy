// What several parts of the model share.
module Basics {

  datatype Option<T> = None | Some(value: T)

  /** howmany: how many pieces of size y are needed for x. */
  function HowMany(x: nat, y: nat): nat
    requires y > 0
  {
    (x + y - 1) / y
  }

  lemma Scale(a: nat, b: nat, d: nat)
    requires a <= b
    ensures a * d <= b * d
  {
    assert b * d - a * d == (b - a) * d;
  }

  /** Quotient and remainder are what they should be. */
  lemma DivMod(x: nat, d: nat, q: nat, r: nat)
    requires x == q * d + r && r < d
    ensures x / d == q && x % d == r
  {
    var p := x / d;
    assert x == p * d + x % d && (p + 1) * d == p * d + d && (q + 1) * d == q * d + d;
    if p < q {
      Scale(p + 1, q, d);
    } else if p > q {
      Scale(q + 1, p, d);
    }
  }

  lemma HowManyTight(x: nat, y: nat)
    requires y > 0
    ensures x <= HowMany(x, y) * y < x + y
  {
    assert x + y - 1 == HowMany(x, y) * y + (x + y - 1) % y;
  }
}
