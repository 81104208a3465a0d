/** Small functions, and facts about multiplication and Euclidean division, that the other modules share. */
module Arith {

  function Least(a: nat, b: nat): nat {
    if a < b then a else b
  }

  function Abs(x: int): (r: int)
    ensures r >= 0 && (r == x || r == -x) && (x != 0 ==> r > 0)
  {
    if x < 0 then -x else x
  }

  lemma MulMonotone(a: int, b: int, d: int)
    requires d >= 0
    ensures a <= b ==> a * d <= b * d
  {
  }

  lemma MulStrict(a: int, b: int, d: int)
    requires d > 0
    ensures a < b <==> a * d < b * d
  {
  }

  lemma DivBounds(x: int, d: int)
    requires d > 0
    ensures x == x / d * d + x % d
    ensures x / d * d <= x < x / d * d + d
  {
  }

  /** Quotient and remainder are the only pair with 0 <= x - q*d < d. */
  lemma DivUnique(x: int, q: int, d: int)
    requires d > 0 && q * d <= x < q * d + d
    ensures x / d == q && x % d == x - q * d
  {
    var p := x / d;
    DivBounds(x, d);
    assert (p + 1) * d == p * d + d && (q + 1) * d == q * d + d;
    MulStrict(p, q + 1, d);
    MulStrict(q, p + 1, d);
  }

  lemma DivAddMultiple(x: int, q: int, d: int)
    requires d > 0
    ensures (x + q * d) / d == x / d + q && (x + q * d) % d == x % d
  {
    DivBounds(x, d);
    assert (x / d + q) * d == x / d * d + q * d;
    DivUnique(x + q * d, x / d + q, d);
  }

  /** i * d by repeated addition. Written this way, products of two unknowns stay out of the solver's arithmetic. */
  function Times(i: nat, d: nat): nat {
    if i == 0 then 0 else Times(i - 1, d) + d
  }

  lemma {:induction false} TimesIsProduct(i: nat, d: nat)
    ensures Times(i, d) == i * d
  {
    if i > 0 {
      TimesIsProduct(i - 1, d);
      assert i * d == (i - 1) * d + d;
    }
  }

  lemma {:induction false} TimesMonotone(i: nat, j: nat, d: nat)
    ensures i < j ==> Times(i, d) + d <= Times(j, d)
    ensures i <= j ==> Times(i, d) <= Times(j, d)
  {
    if i < j {
      TimesMonotone(i, j - 1, d);
    }
  }

  lemma TimesDivMod(x: nat, d: nat)
    requires d > 0
    ensures x / d >= 0 && Times(x / d, d) + x % d == x
  {
    DivBounds(x, d);
    MulStrict(-1, x / d, d);
    TimesIsProduct(x / d, d);
  }
}
